/** The record model of Converter.cs: the closed `AudioType` enumeration with
    its numeric codes and the `Playout` record that becomes one `audio`
    element of the export. */
module Playouts {
  import opened Wrappers

  /** The category of a played item. */
  datatype AudioType = Song | Promo | M3U | OtherPromo | SkippedTrack | OtherActionOrObject | Error {

    /** The enumeration's underlying value, written as the `type` element. */
    function Code(): int {
      match this
      case Song => 0
      case Promo => 1
      case M3U => 3
      case OtherPromo => 5
      case SkippedTrack => 7
      case OtherActionOrObject => 8
      case Error => 9
    }
  }

  /** The codes the enumeration defines. */
  const AudioTypeCodes: set<int> := {0, 1, 3, 5, 7, 8, 9}

  /** Decoding a code: the member whose value it is, if any. */
  function FromCode(code: int): (t: Option<AudioType>)
    ensures t.Some? ==> t.value.Code() == code
  {
    match code
    case 0 => Some(Song)
    case 1 => Some(Promo)
    case 3 => Some(M3U)
    case 5 => Some(OtherPromo)
    case 7 => Some(SkippedTrack)
    case 8 => Some(OtherActionOrObject)
    case 9 => Some(Error)
    case _ => None
  }

  /** Every member's code is one of the seven defined codes and decodes back to it. */
  lemma CodeRoundTrip(t: AudioType)
    ensures t.Code() in AudioTypeCodes
    ensures FromCode(t.Code()) == Some(t)
  {
  }

  /** A code decodes exactly when it is one of the seven defined codes. */
  lemma FromCodeDefined(code: int)
    ensures FromCode(code).Some? <==> code in AudioTypeCodes
  {
  }

  /** Distinct members have distinct codes. */
  lemma CodeInjective(a: AudioType, b: AudioType)
    ensures a.Code() == b.Code() ==> a == b
  {
    CodeRoundTrip(a);
    CodeRoundTrip(b);
  }

  /** The status every converted record carries. */
  const Playing: string := "Playing"

  /** One converted log entry. `id` and the text fields are `None` where the
      C# property stays null. */
  datatype Playout = Playout(
    id: Option<string>,
    audioType: AudioType,
    status: string,
    playedTime: string,
    lengthInSeconds: int,
    title: Option<string>,
    artist: Option<string>,
    category: Option<string>)
}
