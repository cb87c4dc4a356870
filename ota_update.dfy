/**
 * The espota command line of the OTA uploader, the configurations its entry points and helpers build,
 * and the accounting of the progress bar the tool prints.
 */
module OtaUpdate {
  import opened Wrappers
  import Numerals

  const DefaultEspotaPath: string := "./espota.py"
  const DefaultPort: int := 3232
  const DefaultTimeout: int := 30

  /** One upload: the device, the image, the optional port, password and timeout, and the three flags. */
  datatype OtaConfig = OtaConfig(
    deviceIp: string,
    firmwarePath: string,
    port: Option<int> := None,
    auth: Option<string> := None,
    timeout: Option<int> := None,
    debug: bool := true,
    progress: bool := true,
    spiffs: bool := false)

  // ---------------------------------------------------------------------------
  // The command line
  // ---------------------------------------------------------------------------

  function Flag(on: bool, name: string): seq<string> {
    if on then [name] else []
  }

  function NumberOption(name: string, value: Option<int>): seq<string> {
    if value.Some? then [name, Numerals.IntToString(value.value)] else []
  }

  function TextOption(name: string, value: Option<string>): seq<string> {
    if value.Some? then [name, value.value] else []
  }

  /** The espota invocation a configuration stands for, part by part. */
  function CommandLine(espotaPath: string, c: OtaConfig): seq<string>
  {
    ["python", espotaPath] + Flag(c.debug, "--debug") + Flag(c.progress, "--progress") + ["-i", c.deviceIp]
    + NumberOption("-p", c.port) + TextOption("-a", c.auth) + NumberOption("-t", c.timeout)
    + Flag(c.spiffs, "--spiffs") + ["-f", c.firmwarePath]
  }

  /** `buildCommand`: the list grows one step at a time, in the order of the parts above. */
  method BuildCommand(espotaPath: string, config: OtaConfig) returns (command: seq<string>)
    ensures command == CommandLine(espotaPath, config)
  {
    command := ["python", espotaPath];
    ghost var prefix := command;
    if config.debug {
      command := command + ["--debug"];
    }
    prefix := prefix + Flag(config.debug, "--debug");
    assert command == prefix;
    if config.progress {
      command := command + ["--progress"];
    }
    prefix := prefix + Flag(config.progress, "--progress");
    assert command == prefix;
    command := command + ["-i", config.deviceIp];
    prefix := prefix + ["-i", config.deviceIp];
    if config.port.Some? {
      command := command + ["-p", Numerals.IntToString(config.port.value)];
    }
    prefix := prefix + NumberOption("-p", config.port);
    assert command == prefix;
    if config.auth.Some? {
      command := command + ["-a", config.auth.value];
    }
    prefix := prefix + TextOption("-a", config.auth);
    assert command == prefix;
    if config.timeout.Some? {
      command := command + ["-t", Numerals.IntToString(config.timeout.value)];
    }
    prefix := prefix + NumberOption("-t", config.timeout);
    assert command == prefix;
    if config.spiffs {
      command := command + ["--spiffs"];
    }
    prefix := prefix + Flag(config.spiffs, "--spiffs");
    assert command == prefix;
    command := command + ["-f", config.firmwarePath];
  }

  /** One word for each flag that is set, two for each option that is set, and six for the fixed parts. */
  lemma CommandLength(espotaPath: string, c: OtaConfig)
    ensures |CommandLine(espotaPath, c)| == 6 + (if c.debug then 1 else 0) + (if c.progress then 1 else 0)
      + (if c.port.Some? then 2 else 0) + (if c.auth.Some? then 2 else 0) + (if c.timeout.Some? then 2 else 0)
      + (if c.spiffs then 1 else 0)
  {
  }

  /** Where "-i" sits: after the interpreter, the script and the flags that are set. */
  function IpIndex(c: OtaConfig): nat {
    2 + |Flag(c.debug, "--debug")| + |Flag(c.progress, "--progress")|
  }

  /** The command starts with the interpreter and the script, has the device after "-i", and ends with the image. */
  lemma {:induction false} CommandShape(espotaPath: string, c: OtaConfig)
    ensures var cmd := CommandLine(espotaPath, c);
      |cmd| >= IpIndex(c) + 4 && cmd[0] == "python" && cmd[1] == espotaPath
      && cmd[IpIndex(c)] == "-i" && cmd[IpIndex(c) + 1] == c.deviceIp
      && cmd[|cmd| - 2] == "-f" && cmd[|cmd| - 1] == c.firmwarePath
  {
  }

  /** The options come in the order port, password, timeout, each pair right after the previous one. */
  lemma {:induction false} OptionsInOrder(espotaPath: string, c: OtaConfig)
    ensures var cmd := CommandLine(espotaPath, c);
      var p := IpIndex(c) + 2;
      var a := p + |NumberOption("-p", c.port)|;
      var t := a + |TextOption("-a", c.auth)|;
      t + |NumberOption("-t", c.timeout)| + 2 <= |cmd|
      && (c.port.Some? ==> cmd[p] == "-p" && cmd[p + 1] == Numerals.IntToString(c.port.value))
      && (c.auth.Some? ==> cmd[a] == "-a" && cmd[a + 1] == c.auth.value)
      && (c.timeout.Some? ==> cmd[t] == "-t" && cmd[t + 1] == Numerals.IntToString(c.timeout.value))
  {
  }

  /** The words the command consists of when no value coincides with a flag or option name. */
  predicate PlainValues(espotaPath: string, c: OtaConfig) {
    var names := {"python", "--debug", "--progress", "--spiffs", "-i", "-p", "-a", "-t", "-f"};
    espotaPath !in names && c.deviceIp !in names && c.firmwarePath !in names
    && (c.auth.Some? ==> c.auth.value !in names)
  }

  lemma {:induction false} NumbersAreNotNames(n: int)
    ensures var s := Numerals.IntToString(n);
      s != "--debug" && s != "--progress" && s != "--spiffs" && s != "-i" && s != "-p" && s != "-a" && s != "-t" && s != "-f"
  {
    var s := Numerals.IntToString(n);
    if n < 0 {
      assert s[1..] == Numerals.NatToString(-n);
      assert Numerals.IsDigit(s[1]);
    } else {
      assert Numerals.IsDigit(s[0]);
    }
  }

  /** Each flag occurs exactly when the configuration sets it. */
  lemma {:induction false} FlagsPresentExactlyWhenSet(espotaPath: string, c: OtaConfig)
    requires PlainValues(espotaPath, c)
    ensures var cmd := CommandLine(espotaPath, c);
      ("--debug" in cmd <==> c.debug) && ("--progress" in cmd <==> c.progress) && ("--spiffs" in cmd <==> c.spiffs)
  {
    if c.port.Some? { NumbersAreNotNames(c.port.value); }
    if c.timeout.Some? { NumbersAreNotNames(c.timeout.value); }
    OnlyNamedWords(espotaPath, c, "--debug");
    OnlyNamedWords(espotaPath, c, "--progress");
    OnlyNamedWords(espotaPath, c, "--spiffs");
  }

  /** Each option name occurs exactly when the configuration gives its value. */
  lemma {:induction false} OptionsPresentExactlyWhenSet(espotaPath: string, c: OtaConfig)
    requires PlainValues(espotaPath, c)
    ensures var cmd := CommandLine(espotaPath, c);
      ("-p" in cmd <==> c.port.Some?) && ("-a" in cmd <==> c.auth.Some?) && ("-t" in cmd <==> c.timeout.Some?)
  {
    if c.port.Some? { NumbersAreNotNames(c.port.value); }
    if c.timeout.Some? { NumbersAreNotNames(c.timeout.value); }
    OnlyNamedWords(espotaPath, c, "-p");
    OnlyNamedWords(espotaPath, c, "-a");
    OnlyNamedWords(espotaPath, c, "-t");
  }

  /** A name occurs in the command only as the name its part contributes. */
  lemma {:induction false} OnlyNamedWords(espotaPath: string, c: OtaConfig, name: string)
    requires PlainValues(espotaPath, c)
    requires name in {"--debug", "--progress", "--spiffs", "-p", "-a", "-t"}
    ensures name in CommandLine(espotaPath, c) <==>
      name in Flag(c.debug, "--debug") || name in Flag(c.progress, "--progress") || name in NumberOption("-p", c.port)
      || name in TextOption("-a", c.auth) || name in NumberOption("-t", c.timeout) || name in Flag(c.spiffs, "--spiffs")
  {
    InParts(name, ["python", espotaPath], Flag(c.debug, "--debug"), Flag(c.progress, "--progress"), ["-i", c.deviceIp],
            NumberOption("-p", c.port), TextOption("-a", c.auth), NumberOption("-t", c.timeout),
            Flag(c.spiffs, "--spiffs"), ["-f", c.firmwarePath]);
    assert name !in ["python", espotaPath] && name !in ["-i", c.deviceIp] && name !in ["-f", c.firmwarePath];
  }

  /** Membership in the nine parts of a command, put together. */
  lemma InParts<T>(x: T, s1: seq<T>, s2: seq<T>, s3: seq<T>, s4: seq<T>, s5: seq<T>, s6: seq<T>, s7: seq<T>,
                   s8: seq<T>, s9: seq<T>)
    ensures x in s1 + s2 + s3 + s4 + s5 + s6 + s7 + s8 + s9 <==>
      x in s1 || x in s2 || x in s3 || x in s4 || x in s5 || x in s6 || x in s7 || x in s8 || x in s9
  {
  }

  // ---------------------------------------------------------------------------
  // The configurations the entry points build
  // ---------------------------------------------------------------------------

  /** `uploadFirmware(deviceIp, firmwarePath, ...)`: no port, password or timeout, no SPIFFS. */
  function UploadConfig(deviceIp: string, firmwarePath: string, debug: bool := true, progress: bool := true): (c: OtaConfig)
    ensures c.deviceIp == deviceIp && c.firmwarePath == firmwarePath && c.debug == debug && c.progress == progress
    ensures c.port.None? && c.auth.None? && c.timeout.None? && !c.spiffs
  {
    OtaConfig(deviceIp, firmwarePath, debug := debug, progress := progress)
  }

  /** `uploadFirmwareWithAuth`: as the plain upload, with the password set. */
  function UploadWithAuthConfig(deviceIp: string, firmwarePath: string, authPassword: string,
                                debug: bool := true, progress: bool := true): (c: OtaConfig)
    ensures c == UploadConfig(deviceIp, firmwarePath, debug, progress).(auth := Some(authPassword))
  {
    OtaConfig(deviceIp, firmwarePath, auth := Some(authPassword), debug := debug, progress := progress)
  }

  /** `uploadSpiffs`: as the plain upload of the SPIFFS image, with the SPIFFS flag set. */
  function UploadSpiffsConfig(deviceIp: string, spiffsPath: string, debug: bool := true, progress: bool := true): (c: OtaConfig)
    ensures c == UploadConfig(deviceIp, spiffsPath, debug, progress).(spiffs := true)
  {
    OtaConfig(deviceIp, spiffsPath, debug := debug, progress := progress, spiffs := true)
  }

  /** The plain upload with its defaults runs espota with both flags, the device and the image only. */
  lemma {:induction false} PlainUploadCommand(espotaPath: string, deviceIp: string, firmwarePath: string)
    ensures CommandLine(espotaPath, UploadConfig(deviceIp, firmwarePath))
         == ["python", espotaPath, "--debug", "--progress", "-i", deviceIp, "-f", firmwarePath]
  {
  }

  /** `EspOtaHelper.createStandardConfig`: debug and progress on, the optional password, nothing else. */
  function StandardConfig(deviceIp: string, firmwarePath: string, auth: Option<string> := None): (c: OtaConfig)
    ensures c.debug && c.progress && !c.spiffs && c.port.None? && c.timeout.None? && c.auth == auth
    ensures c.deviceIp == deviceIp && c.firmwarePath == firmwarePath
  {
    OtaConfig(deviceIp, firmwarePath, auth := auth, debug := true, progress := true)
  }

  /** `EspOtaHelper.createSpiffsConfig`: the standard configuration with SPIFFS on. */
  function SpiffsConfig(deviceIp: string, spiffsPath: string, auth: Option<string> := None): (c: OtaConfig)
    ensures c == StandardConfig(deviceIp, spiffsPath, auth).(spiffs := true)
  {
    OtaConfig(deviceIp, spiffsPath, auth := auth, debug := true, progress := true, spiffs := true)
  }

  /** `EspOtaHelper.createCustomConfig`: the standard configuration with a port (3232) and a timeout (30). */
  function CustomConfig(deviceIp: string, firmwarePath: string, port: int := DefaultPort, auth: Option<string> := None,
                        timeout: int := DefaultTimeout): (c: OtaConfig)
    ensures c == StandardConfig(deviceIp, firmwarePath, auth).(port := Some(port), timeout := Some(timeout))
  {
    OtaConfig(deviceIp, firmwarePath, port := Some(port), auth := auth, timeout := Some(timeout),
              debug := true, progress := true)
  }

  /** The custom configuration with its defaults passes port 3232 and timeout 30. */
  lemma {:induction false} CustomDefaultsCommand(espotaPath: string, deviceIp: string, firmwarePath: string)
    ensures CommandLine(espotaPath, CustomConfig(deviceIp, firmwarePath))
         == ["python", espotaPath, "--debug", "--progress", "-i", deviceIp, "-p", "3232", "-t", "30", "-f", firmwarePath]
  {
    assert Numerals.NatToString(3) == "3";
    assert Numerals.NatToString(32) == "32";
    assert Numerals.NatToString(323) == "323";
    assert Numerals.IntToString(3232) == "3232";
    assert Numerals.IntToString(30) == "30";
  }

  // ---------------------------------------------------------------------------
  // Progress
  // ---------------------------------------------------------------------------

  datatype ProgressInfo = ProgressInfo(percentage: int, progressBar: string, filledBars: int, totalBars: int)

  /** The number of '=' in a bar. */
  function Filled(bar: string): (n: nat)
    ensures n <= |bar|
    ensures n == multiset(bar)['=']
  {
    if bar == [] then 0
    else
      assert bar == [bar[0]] + bar[1..];
      assert multiset(bar) == multiset{bar[0]} + multiset(bar[1..]);
      (if bar[0] == '=' then 1 else 0) + Filled(bar[1..])
  }

  /** The progress read off a matched line: the bar and the digits captured before '%'. */
  function ProgressFromMatch(bar: string, digits: string): (p: ProgressInfo)
    ensures 0 <= p.filledBars <= p.totalBars == |bar|
    ensures p.filledBars == multiset(bar)['=']
    ensures p.progressBar == bar
    ensures p.percentage == Numerals.ToIntOrNull(digits).GetOr(0)
  {
    ProgressInfo(Numerals.ToIntOrNull(digits).GetOr(0), bar, Filled(bar), |bar|)
  }

  /** The bar is full exactly when it is all '='. */
  lemma {:induction false} FullBarIsAllFilled(bar: string)
    ensures Filled(bar) == |bar| <==> forall i :: 0 <= i < |bar| ==> bar[i] == '='
  {
    if bar != [] {
      FullBarIsAllFilled(bar[1..]);
      assert forall i :: 1 <= i < |bar| ==> bar[i] == bar[1..][i - 1];
    }
  }

  /** `formatProgress`: "Upload: p% (f/t bars)". */
  function FormatProgress(p: ProgressInfo): (s: string)
    ensures |s| > 8 && s[..8] == "Upload: " && s[|s| - 6..] == " bars)"
  {
    var s := "Upload: " + Numerals.IntToString(p.percentage) + ProgressTail(p);
    assert s[..8] == "Upload: ";
    assert s[|s| - 6..] == ProgressTail(p)[|ProgressTail(p)| - 6..];
    s
  }

  /** What follows the percentage: "% (f/t bars)". */
  function ProgressTail(p: ProgressInfo): (t: string)
    ensures |t| > 6 && t[0] == '%' && t[|t| - 6..] == " bars)"
  {
    var t := "% (" + Numerals.IntToString(p.filledBars) + "/" + Numerals.IntToString(p.totalBars) + " bars)";
    assert t[|t| - 6..] == " bars)";
    t
  }

  /** The pieces of head + middle + tail can be read back by position. */
  lemma Splice<T>(head: seq<T>, middle: seq<T>, tail: seq<T>)
    requires |tail| > 0
    ensures var s := head + middle + tail;
      |head| + |middle| < |s| && s[..|head|] == head && s[|head|..|head| + |middle|] == middle
      && s[|head| + |middle|] == tail[0] && s[|head| + |middle|..] == tail
      && forall i :: |head| <= i < |head| + |middle| ==> s[i] == middle[i - |head|]
  {
    var s := head + middle + tail;
    assert s[..|head|] == head;
    assert s[|head|..|head| + |middle|] == middle;
    assert s[|head| + |middle|..] == tail;
  }

  /** A printed Int holds only a sign and digits, so no separator character such as '%' or '/'. */
  lemma NoSeparatorInInt(n: int, c: char)
    requires c != '-' && !Numerals.IsDigit(c)
    ensures forall i :: 0 <= i < |Numerals.IntToString(n)| ==> Numerals.IntToString(n)[i] != c
  {
    var digits := Numerals.IntToString(n);
    forall i | 0 <= i < |digits| ensures digits[i] != c {
      if n < 0 {
        if i > 0 {
          assert digits[1..] == Numerals.NatToString(-n);
          assert Numerals.IsDigit(digits[1..][i - 1]);
        }
      } else {
        assert Numerals.IsDigit(digits[i]);
      }
    }
  }

  /** The percentage can be read back from the text between "Upload: " and the first '%'. */
  lemma {:induction false} PercentageReadsBack(p: ProgressInfo)
    requires Numerals.IsInt32(p.percentage)
    ensures var s := FormatProgress(p);
      var k := |Numerals.IntToString(p.percentage)|;
      8 + k < |s| && s[..8] == "Upload: " && s[8 + k] == '%'
      && (forall i :: 8 <= i < 8 + k ==> s[i] != '%')
      && Numerals.ToIntOrNull(s[8..8 + k]) == Some(p.percentage)
      && s[8 + k..] == ProgressTail(p)
  {
    var digits := Numerals.IntToString(p.percentage);
    Splice("Upload: ", digits, ProgressTail(p));
    NoSeparatorInInt(p.percentage, '%');
    Numerals.IntToStringRoundTrip(p.percentage);
  }

  /**
   * The filled and total counts can be read back from what follows the percentage: the filled count is
   * the text between "% (" and the first '/', and the total is the text from there to " bars)".
   */
  lemma {:induction false} BarCountsReadBack(p: ProgressInfo)
    requires Numerals.IsInt32(p.filledBars) && Numerals.IsInt32(p.totalBars)
    ensures var t := ProgressTail(p);
      var slash := 3 + |Numerals.IntToString(p.filledBars)|;
      slash + 1 <= |t| - 6 && t[..3] == "% (" && t[slash] == '/'
      && (forall i :: 3 <= i < slash ==> t[i] != '/')
      && Numerals.ToIntOrNull(t[3..slash]) == Some(p.filledBars)
      && Numerals.ToIntOrNull(t[slash + 1..|t| - 6]) == Some(p.totalBars)
  {
    var filled := Numerals.IntToString(p.filledBars);
    var total := Numerals.IntToString(p.totalBars);
    TailPieces(filled, total);
    NoSeparatorInInt(p.filledBars, '/');
    Numerals.IntToStringRoundTrip(p.filledBars);
    Numerals.IntToStringRoundTrip(p.totalBars);
  }

  /** Where the pieces of "% (f/t bars)" sit, for any texts f and t. */
  lemma TailPieces(filled: string, total: string)
    ensures var t := "% (" + filled + "/" + total + " bars)";
      var slash := 3 + |filled|;
      slash + 1 <= |t| - 6 && t[..3] == "% (" && t[slash] == '/'
      && t[3..slash] == filled && t[slash + 1..|t| - 6] == total
      && forall i :: 3 <= i < slash ==> t[i] == filled[i - 3]
  {
    var front := "% (" + filled + "/";
    Splice("% (", filled, "/");
    Splice(front, total, " bars)");
    var t := front + total + " bars)";
    assert t[..|front|] == front;
    assert t[3..3 + |filled|] == front[3..3 + |filled|];
  }

  /** The text determines the three numbers it shows: different progress never formats the same. */
  lemma FormatProgressDeterminesCounts(p: ProgressInfo, q: ProgressInfo)
    requires Numerals.IsInt32(p.percentage) && Numerals.IsInt32(p.filledBars) && Numerals.IsInt32(p.totalBars)
    requires Numerals.IsInt32(q.percentage) && Numerals.IsInt32(q.filledBars) && Numerals.IsInt32(q.totalBars)
    requires FormatProgress(p) == FormatProgress(q)
    ensures p.percentage == q.percentage && p.filledBars == q.filledBars && p.totalBars == q.totalBars
  {
    SameTextSamePercentage(p, q);
    SameTailSameCounts(p, q);
  }

  lemma SameTextSamePercentage(p: ProgressInfo, q: ProgressInfo)
    requires Numerals.IsInt32(p.percentage) && Numerals.IsInt32(q.percentage)
    requires FormatProgress(p) == FormatProgress(q)
    ensures p.percentage == q.percentage && ProgressTail(p) == ProgressTail(q)
  {
    var s := FormatProgress(p);
    PercentageReadsBack(p);
    PercentageReadsBack(q);
    var kp := |Numerals.IntToString(p.percentage)|;
    var kq := |Numerals.IntToString(q.percentage)|;
    if kp < kq { assert false; } else if kq < kp { assert false; }
  }

  lemma SameTailSameCounts(p: ProgressInfo, q: ProgressInfo)
    requires Numerals.IsInt32(p.filledBars) && Numerals.IsInt32(p.totalBars)
    requires Numerals.IsInt32(q.filledBars) && Numerals.IsInt32(q.totalBars)
    requires ProgressTail(p) == ProgressTail(q)
    ensures p.filledBars == q.filledBars && p.totalBars == q.totalBars
  {
    var t := ProgressTail(p);
    BarCountsReadBack(p);
    BarCountsReadBack(q);
    var fp := |Numerals.IntToString(p.filledBars)|;
    var fq := |Numerals.IntToString(q.filledBars)|;
    if fp < fq { assert false; } else if fq < fp { assert false; }
  }
}
