/** The entry point of the standalone migration in
    `migrations/standalone/index.ts`: the `@ionic/angular` version gate of
    `checkInstalledIonicVersion` and the order in which
    `runStandaloneMigration` runs its steps. The version text is read with
    JavaScript's `String.prototype.split` and `parseInt`, both written out
    here, and a `NaN` from `parseInt` is `None`, for which every comparison is
    false. */
module StandaloneMigration {
  import opened Common
  import opened StringUtils
  import opened TemplateWalk
  import opened TypeScriptUtils
  import Icons = GenerateUseIcons

  /** `s.split(sep)` for a one-character separator: the pieces between
      separators, in order; there is always at least one. */
  function Split(s: string, sep: char): (parts: seq<string>)
    ensures |parts| >= 1
    ensures forall i :: 0 <= i < |parts| ==> sep !in parts[i]
    decreases |s|
  {
    if s == [] then [""]
    else
      var rest := Split(s[1..], sep);
      if s[0] == sep then [""] + rest
      else
        assert forall i :: 1 <= i < |rest| ==> ([[s[0]] + rest[0]] + rest[1..])[i] == rest[i];
        [[s[0]] + rest[0]] + rest[1..]
  }

  /** `parts.join(sep)`. */
  function Join(parts: seq<string>, sep: char): string
    requires |parts| >= 1
    decreases |parts|
  {
    if |parts| == 1 then parts[0] else parts[0] + [sep] + Join(parts[1..], sep)
  }

  /** Splitting loses nothing: joining the pieces gives back the text. */
  lemma {:induction false} SplitJoin(s: string, sep: char)
    ensures Join(Split(s, sep), sep) == s
    decreases |s|
  {
    if s != [] {
      var rest := Split(s[1..], sep);
      SplitJoin(s[1..], sep);
      if s[0] == sep {
        assert Split(s, sep)[1..] == rest;
      } else {
        var parts := Split(s, sep);
        if |rest| == 1 {
          assert parts == [[s[0]] + rest[0]];
        } else {
          assert parts[1..] == rest[1..];
          assert Join(rest, sep) == rest[0] + [sep] + Join(rest[1..], sep);
        }
      }
    }
  }

  /** Text without the separator is one piece; text whose first separator
      follows `a` splits into `a` and the pieces of the remainder. */
  lemma {:induction false} SplitAfter(a: string, sep: char, rest: string)
    requires sep !in a
    ensures Split(a, sep) == [a]
    ensures Split(a + [sep] + rest, sep) == [a] + Split(rest, sep)
    decreases |a|
  {
    if a == [] {
      assert a + [sep] + rest == [sep] + rest;
      assert ([sep] + rest)[1..] == rest;
    } else {
      assert a[0] != sep by { assert a[0] in a; }
      SplitAfter(a[1..], sep, rest);
      assert (a + [sep] + rest)[1..] == a[1..] + [sep] + rest;
      assert [a[0]] + a[1..] == a;
    }
  }

  /** The value of `c` read as a digit of base 36 (36 when it is none). */
  function CharValue(c: char): (v: nat)
    ensures v <= 36
    ensures '0' <= c <= '9' ==> v == c as int - '0' as int
  {
    if '0' <= c <= '9' then c as int - '0' as int
    else if 'a' <= c <= 'z' then c as int - 'a' as int + 10
    else if 'A' <= c <= 'Z' then c as int - 'A' as int + 10
    else 36
  }

  predicate IsDigit(c: char, radix: nat) {
    CharValue(c) < radix
  }

  /** The length of the longest prefix of `s` made of base-`radix` digits. */
  function DigitRun(s: string, radix: nat): (n: nat)
    ensures n <= |s|
    ensures forall i :: 0 <= i < n ==> IsDigit(s[i], radix)
    ensures n < |s| ==> !IsDigit(s[n], radix)
    decreases |s|
  {
    if s != [] && IsDigit(s[0], radix) then 1 + DigitRun(s[1..], radix) else 0
  }

  /** The number the characters of `s` spell in base `radix`, most
      significant first. */
  function DigitsValue(s: string, radix: nat): nat
    decreases |s|
  {
    if s == [] then 0
    else DigitsValue(s[..|s| - 1], radix) * radix + CharValue(s[|s| - 1])
  }

  /** `parseInt(s)` with no radix: leading white space is skipped, one sign
      is read, a `0x`/`0X` prefix selects base 16 (base 10 otherwise), and
      the longest run of digits that follows is the number; with no digits
      the result is `NaN`, here `None`. */
  function ParseInt(s: string): Option<int> {
    ParseSigned(s[SkipLeadingWhitespace(s)..])
  }

  /** The number of leading white-space characters. */
  function SkipLeadingWhitespace(s: string): (n: nat)
    ensures n <= |s|
    ensures forall i :: 0 <= i < n ==> IsJsWhitespace(s[i])
    ensures n < |s| ==> !IsJsWhitespace(s[n])
    decreases |s|
  {
    if s != [] && IsJsWhitespace(s[0]) then 1 + SkipLeadingWhitespace(s[1..]) else 0
  }

  /** An optional sign, then the unsigned part. */
  function ParseSigned(t: string): Option<int> {
    if t != [] && t[0] == '-' then
      match ParseUnsigned(t[1..]) case None => None case Some(m) => Some(-(m as int))
    else if t != [] && t[0] == '+' then ParseUnsigned(t[1..])
    else ParseUnsigned(t)
  }

  /** An optional `0x`/`0X` prefix, then the digits. */
  function ParseUnsigned(u: string): Option<nat> {
    if |u| >= 2 && u[0] == '0' && (u[1] == 'x' || u[1] == 'X') then ParseDigits(u[2..], 16)
    else ParseDigits(u, 10)
  }

  /** The value of the longest run of digits at the start of `b`, if any. */
  function ParseDigits(b: string, radix: nat): (r: Option<nat>)
    ensures r.None? <==> b == [] || !IsDigit(b[0], radix)
  {
    var n := DigitRun(b, radix);
    if n == 0 then None else Some(DigitsValue(b[..n], radix))
  }

  /** The decimal rendering of a natural number, most significant digit first. */
  function Decimal(n: nat): (s: string)
    ensures |s| >= 1
    ensures forall i :: 0 <= i < |s| ==> '0' <= s[i] <= '9'
  {
    if n < 10 then [('0' as int + n) as char]
    else Decimal(n / 10) + [('0' as int + n % 10) as char]
  }

  lemma {:induction false} DecimalValue(n: nat)
    ensures forall i :: 0 <= i < |Decimal(n)| ==> IsDigit(Decimal(n)[i], 10)
    ensures DigitsValue(Decimal(n), 10) == n
  {
    if n >= 10 {
      DecimalValue(n / 10);
      var s := Decimal(n);
      assert s[..|s| - 1] == Decimal(n / 10);
    }
  }

  /** `parseInt` reads back any natural number written in decimal, and
      trailing text that does not start with a digit does not change it
      (nor with `x`, which after a lone `0` would select base 16). */
  lemma ParseIntDecimal(n: nat, tail: string)
    requires tail == [] || (!('0' <= tail[0] <= '9') && tail[0] != 'x' && tail[0] != 'X')
    ensures ParseInt(Decimal(n) + tail) == Some(n)
  {
    var d := Decimal(n);
    var s := d + tail;
    assert s[0] == d[0];
    assert SkipLeadingWhitespace(s) == 0 by {
      assert !IsJsWhitespace(s[0]);
    }
    assert s[0..] == s;
    assert ParseSigned(s) == ParseUnsigned(s);
    NoHexPrefix(n, tail);
    DecimalDigits(n, tail);
  }

  /** A decimal rendering, followed by anything but `x`/`X`, has no `0x` prefix. */
  lemma NoHexPrefix(n: nat, tail: string)
    requires tail == [] || (tail[0] != 'x' && tail[0] != 'X')
    ensures ParseUnsigned(Decimal(n) + tail) == ParseDigits(Decimal(n) + tail, 10)
  {
    var d := Decimal(n);
    var s := d + tail;
    if |s| >= 2 && s[0] == '0' {
      if n < 10 {
        assert s[1] == tail[0];
      } else {
        DecimalLeading(n);
      }
    }
  }

  /** The digits of a decimal rendering are read exactly, up to a non-digit. */
  lemma DecimalDigits(n: nat, tail: string)
    requires tail == [] || !('0' <= tail[0] <= '9')
    ensures ParseDigits(Decimal(n) + tail, 10) == Some(n)
  {
    var d := Decimal(n);
    DecimalValue(n);
    DigitRunPrefix(d, tail, 10);
    assert (d + tail)[..|d|] == d;
  }

  /** A rendering of a positive number does not start with `0`. */
  lemma {:induction false} DecimalLeading(n: nat)
    requires n >= 10
    ensures Decimal(n)[0] != '0'
  {
    assert Decimal(n) == Decimal(n / 10) + [('0' as int + n % 10) as char];
    if n / 10 >= 10 {
      DecimalLeading(n / 10);
    }
  }

  /** A run of digits followed by a non-digit (or nothing) is read entirely. */
  lemma {:induction false} DigitRunPrefix(d: string, tail: string, radix: nat)
    requires forall i :: 0 <= i < |d| ==> IsDigit(d[i], radix)
    requires tail == [] || !IsDigit(tail[0], radix)
    ensures DigitRun(d + tail, radix) == |d|
    decreases |d|
  {
    if d == [] {
      assert d + tail == tail;
    } else {
      assert (d + tail)[0] == d[0];
      assert (d + tail)[1..] == d[1..] + tail;
      DigitRunPrefix(d[1..], tail, radix);
    }
  }

  /** The decision of lines 106-117 on the parsed major and minor versions.
      A `None` (`NaN`) compares false with everything. */
  function VersionGate(major: Option<int>, minor: Option<int>): (accepted: bool)
    ensures major.Some? && major.value < 7 ==> !accepted
    ensures major == Some(7) && minor.Some? && minor.value < 5 ==> !accepted
  {
    if major.Some? && major.value < 7 then false
    else if major == Some(7) && minor.Some? && minor.value < 5 then false
    else true
  }

  /** The gate accepts exactly the versions 7.5 and later, and any version
      whose major part does not parse, or whose major part is 7 and whose
      minor part does not parse. */
  lemma VersionGateMeaning(major: Option<int>, minor: Option<int>)
    ensures VersionGate(major, minor) <==>
      major.None? || major.value > 7 || (major.value == 7 && (minor.None? || minor.value >= 5))
  {
  }

  /** `[major, minor] = version.split(".")` and `parseInt` of each; a missing
      minor part is `undefined`, which `parseInt` reads as the text
      `"undefined"`. */
  function ParsedVersion(version: string): (Option<int>, Option<int>) {
    var parts := Split(version, '.');
    (ParseInt(parts[0]), ParseInt(if |parts| > 1 then parts[1] else "undefined"))
  }

  lemma UndefinedIsNaN()
    ensures ParseInt("undefined") == None
  {
    assert SkipLeadingWhitespace("undefined") == 0;
    assert "undefined"[0..] == "undefined";
  }

  /** `checkInstalledIonicVersion(dir)`. `version` is what
      `getActualPackageVersion` found; when it is missing or empty the user is
      asked, and `continueAnyway` is whether they confirmed. */
  function CheckInstalledIonicVersion(version: Option<string>, continueAnyway: bool): (ok: bool)
    ensures (version.None? || version.value == "") ==> ok == continueAnyway
    ensures version.Some? && version.value != "" ==>
      ok == VersionGate(ParsedVersion(version.value).0, ParsedVersion(version.value).1)
  {
    if version.None? || version.value == "" then continueAnyway
    else
      var (major, minor) := ParsedVersion(version.value);
      VersionGate(major, minor)
  }

  /** Only the first two dot-separated parts are read: whatever follows the
      second dot never changes the decision. */
  lemma PatchIgnored(major: string, minor: string, patch: string)
    requires '.' !in major && '.' !in minor
    ensures ParsedVersion(major + "." + minor + "." + patch) == ParsedVersion(major + "." + minor)
  {
    SplitAfter(major, '.', minor + "." + patch);
    SplitAfter(minor, '.', patch);
    SplitAfter(major, '.', minor);
    assert major + "." + minor + "." + patch == major + ['.'] + (minor + ['.'] + patch);
    assert major + "." + minor == major + ['.'] + minor;
  }

  /** A version written `M.m` or `M.m.<anything>` in decimal is accepted
      exactly when it is at least 7.5. */
  lemma DecimalVersionGate(major: nat, minor: nat, rest: string)
    requires rest == [] || rest[0] == '.'
    ensures CheckInstalledIonicVersion(Some(Decimal(major) + "." + Decimal(minor) + rest), false)
      <==> major > 7 || (major == 7 && minor >= 5)
  {
    DecimalVersionParsed(major, minor, rest);
  }

  /** `M.m` or `M.m.<anything>` in decimal parses as the pair `(M, m)`. */
  lemma DecimalVersionParsed(major: nat, minor: nat, rest: string)
    requires rest == [] || rest[0] == '.'
    ensures ParsedVersion(Decimal(major) + "." + Decimal(minor) + rest) == (Some(major), Some(minor))
  {
    var version := Decimal(major) + "." + Decimal(minor) + rest;
    DecimalVersionSplit(major, minor, rest);
    ParsedFromParts(version, Decimal(major), Decimal(minor));
    ParseIntOfDecimal(major);
    ParseIntOfDecimal(minor);
  }

  lemma ParseIntOfDecimal(n: nat)
    ensures ParseInt(Decimal(n)) == Some(n)
  {
    ParseIntDecimal(n, []);
    assert Decimal(n) + [] == Decimal(n);
  }

  lemma ParsedFromParts(version: string, a: string, b: string)
    requires |Split(version, '.')| >= 2 && Split(version, '.')[0] == a && Split(version, '.')[1] == b
    ensures ParsedVersion(version) == (ParseInt(a), ParseInt(b))
  {
  }

  lemma DecimalVersionSplit(major: nat, minor: nat, rest: string)
    requires rest == [] || rest[0] == '.'
    ensures var parts := Split(Decimal(major) + "." + Decimal(minor) + rest, '.');
      |parts| >= 2 && parts[0] == Decimal(major) && parts[1] == Decimal(minor)
  {
    DecimalHasNoDot(major);
    DecimalHasNoDot(minor);
    SplitTwo(Decimal(major), Decimal(minor), rest, '.');
  }

  lemma DecimalHasNoDot(n: nat)
    ensures '.' !in Decimal(n)
  {
    assert forall i :: 0 <= i < |Decimal(n)| ==> Decimal(n)[i] != '.';
  }

  /** `a<sep>b` followed by nothing or by a separator splits into `a`, `b`, .... */
  lemma SplitTwo(a: string, b: string, rest: string, sep: char)
    requires sep !in a && sep !in b
    requires rest == [] || rest[0] == sep
    ensures var parts := Split(a + [sep] + b + rest, sep);
      |parts| >= 2 && parts[0] == a && parts[1] == b
  {
    assert a + [sep] + b + rest == a + [sep] + (b + rest);
    SplitAfter(a, sep, b + rest);
    if rest == [] {
      assert b + rest == b;
      SplitAfter(b, sep, []);
    } else {
      assert b + rest == b + [sep] + rest[1..];
      SplitAfter(b, sep, rest[1..]);
    }
  }

  /** The steps `runStandaloneMigration` can run besides the version check. */
  datatype MigrationStep = RunInitializeAddIcons | RunRemoveAddIcons | RunGenerateUseIcons

  /** `runStandaloneMigration({project, cliOptions, dir, spinner})`. The
      version check is given by its inputs; `steps` records the migration
      steps run, in order. `initializeAddIcons` and `removeAddIcons` are only
      recorded; `files` is the project as `generateUseIcons` sees it.
      `useIconFile` and `saved` are the barrel `generateUseIcons` used and
      whether it was saved; both are `null` and `false` when nothing ran. */
  method RunStandaloneMigration(version: Option<string>, continueAnyway: bool, initialize: bool,
                                files: seq<Icons.ProjectFile>, parse: string -> seq<Node>,
                                components: set<string>, existing: SourceFile?)
    returns (migrated: bool, steps: seq<MigrationStep>, useIconFile: SourceFile?, saved: bool)
    modifies existing
    ensures migrated == CheckInstalledIonicVersion(version, continueAnyway)
    ensures !migrated ==>
      steps == [] && useIconFile == null && !saved && (existing != null ==> unchanged(existing))
    ensures migrated ==>
      steps == (if initialize then [RunInitializeAddIcons, RunRemoveAddIcons] else []) + [RunGenerateUseIcons]
    ensures migrated ==>
      (useIconFile != null
       && (existing != null ==> useIconFile == existing)
       && (existing == null ==> fresh(useIconFile)))
    ensures migrated && useIconFile != null ==>
      var icons := Distinct(Icons.CollectedIcons(files, parse, components));
      && (icons != [] ==>
            (saved && !useIconFile.hasClass && useIconFile.imports == []
             && useIconFile.exports == [Declaration(Icons.IconsModule, Distinct(Map(KebabCaseToCamelCase, icons)))]))
      && (icons == [] ==>
            (!saved
             && (existing != null ==> unchanged(existing))
             && (existing == null ==> !useIconFile.hasClass && useIconFile.imports == [] && useIconFile.exports == [])))
  {
    var hasIonicAngularMinVersion := CheckInstalledIonicVersion(version, continueAnyway);
    if !hasIonicAngularMinVersion {
      return false, [], null, false;
    }
    steps := [];
    if initialize {
      steps := steps + [RunInitializeAddIcons];
      steps := steps + [RunRemoveAddIcons];
    }
    var file;
    file, saved := Icons.GenerateUseIcons(files, parse, components, existing);
    useIconFile := file;
    steps := steps + [RunGenerateUseIcons];
    migrated := true;
  }
}
