/** `Main`: how the four command-line arguments become the converter's
    settings. Printing the usage text and the endless keep-alive loop are
    outside the model; what remains is the decision `Main` takes. */
module Program {
  import opened Wrappers
  import opened Text
  import opened Scheduler

  /** The outcome of decoding the arguments. */
  datatype Launch =
    | Usage                     // not exactly four arguments: the usage text, then return
    | FormatError(argument: nat) // `int.Parse` threw on `args[argument]`
    | Start(settings: Settings) // a converter is constructed with these settings

  /** The third argument that selects the one-off conversion of every file. */
  const AllFlag := "-all"

  /** The interval, in minutes, kept when `-all` is given (the converter ignores it). */
  const DefaultInterval := 2

  /** The argument decoding of `Main`; the interval is parsed before the offset,
      so a bad interval is the error reported when both are bad. */
  function DecodeArgs(args: seq<string>): (launch: Launch)
    ensures launch.Usage? <==> |args| != 4
    ensures launch.FormatError? ==> launch.argument == 2 || launch.argument == 3
    ensures launch.Start? ==>
              && InInt32(launch.settings.interval)
              && InInt32(launch.settings.playtimeOffset)
              && (launch.settings.convertAll ==> launch.settings.interval == DefaultInterval)
  {
    if |args| != 4 then Usage
    else
      var convertAll := args[2] == AllFlag;
      var interval := if convertAll then Some(DefaultInterval) else ParseInt(args[2]);
      if interval.None? then FormatError(2)
      else
        var offset := ParseInt(args[3]);
        if offset.None? then FormatError(3)
        else Start(Settings(args[0], args[1], convertAll, interval.value, offset.value))
  }

  /** The command line the accompanying batch file would pass for `settings`. */
  function EncodeArgs(settings: Settings): (args: seq<string>)
    ensures |args| == 4
    ensures args[0] == settings.sourceDir && args[1] == settings.destinationDir
    ensures args[2] == AllFlag <==> settings.convertAll
  {
    var mode := if settings.convertAll then AllFlag else IntToString(settings.interval);
    NoIntegerIsAllFlag(settings.interval);
    [settings.sourceDir, settings.destinationDir, mode, IntToString(settings.playtimeOffset)]
  }

  /** A rendered integer never reads as the `-all` flag. */
  lemma NoIntegerIsAllFlag(n: int)
    ensures IntToString(n) != AllFlag
  {
    if n < 0 {
      var digits := NatToString(-n);
      assert IntToString(n)[1] == digits[0];
      assert IsDigit(digits[0]);
    } else {
      assert IsDigit(NatToString(n)[0]);
    }
  }

  /** Every setting `Main` can produce is recovered from its command line. */
  lemma DecodeEncode(settings: Settings)
    requires InInt32(settings.interval) && InInt32(settings.playtimeOffset)
    requires settings.convertAll ==> settings.interval == DefaultInterval
    ensures DecodeArgs(EncodeArgs(settings)) == Start(settings)
  {
    ParseIntToString(settings.playtimeOffset);
    if !settings.convertAll {
      ParseIntToString(settings.interval);
    }
  }

  /** Decoding normalises: the canonical command line of decoded settings
      decodes to the same settings. */
  lemma DecodeNormalises(args: seq<string>)
    requires DecodeArgs(args).Start?
    ensures DecodeArgs(EncodeArgs(DecodeArgs(args).settings)) == DecodeArgs(args)
  {
    DecodeEncode(DecodeArgs(args).settings);
  }

  /** Exactly when a converter is started, and with what. */
  lemma StartIff(args: seq<string>)
    ensures DecodeArgs(args).Start? <==>
              && |args| == 4
              && (args[2] == AllFlag || ParseInt(args[2]).Some?)
              && ParseInt(args[3]).Some?
    ensures DecodeArgs(args).Start? ==>
              var s := DecodeArgs(args).settings;
              && s.sourceDir == args[0] && s.destinationDir == args[1]
              && (s.convertAll <==> args[2] == AllFlag)
              && (!s.convertAll ==> Some(s.interval) == ParseInt(args[2]))
              && Some(s.playtimeOffset) == ParseInt(args[3])
  {
  }

  /** Exactly when each argument is reported as malformed: the interval is
      checked first, and only when `-all` is absent. */
  lemma FormatErrorIff(args: seq<string>)
    ensures DecodeArgs(args) == FormatError(2) <==>
              |args| == 4 && args[2] != AllFlag && ParseInt(args[2]).None?
    ensures DecodeArgs(args) == FormatError(3) <==>
              && |args| == 4
              && (args[2] == AllFlag || ParseInt(args[2]).Some?)
              && ParseInt(args[3]).None?
  {
  }
}
