/** String helpers the CLI relies on: JavaScript's notion of white space,
    prefix/suffix tests, and the kebab-case to camelCase conversion that turns
    an icon name such as `logo-ionic` into the binding `logoIonic` and a flag
    such as `dry-run` into the option key `dryRun`. */
module StringUtils {

  /** The characters JavaScript treats as white space: the `\s` class of a
      regular expression, and what `parseInt` skips before a number. */
  predicate IsJsWhitespace(c: char) {
    c == ' ' || c == '\t' || c == '\n' || c == '\r' || c == '\U{000B}' || c == '\U{000C}'
    || c == '\U{00A0}' || c == '\U{1680}' || ('\U{2000}' <= c <= '\U{200A}')
    || c == '\U{2028}' || c == '\U{2029}' || c == '\U{202F}' || c == '\U{205F}'
    || c == '\U{3000}' || c == '\U{FEFF}'
  }

  predicate StartsWith(s: string, prefix: string) {
    |prefix| <= |s| && s[..|prefix|] == prefix
  }

  predicate EndsWith(s: string, suffix: string) {
    |suffix| <= |s| && s[|s| - |suffix|..] == suffix
  }

  predicate IsLower(c: char) { 'a' <= c <= 'z' }

  predicate IsUpper(c: char) { 'A' <= c <= 'Z' }

  function ToUpper(c: char): (u: char)
    requires IsLower(c)
    ensures IsUpper(u)
  {
    (c as int - 32) as char
  }

  function ToLower(c: char): (l: char)
    requires IsUpper(c)
    ensures IsLower(l)
  {
    (c as int + 32) as char
  }

  /** No upper-case ASCII letter occurs: the shape of icon names and flags. */
  predicate NoUpper(s: string) {
    forall i :: 0 <= i < |s| ==> !IsUpper(s[i])
  }

  /** The kebab-case to camelCase rule the CLI relies on. Its own definition
      (`string-utils.ts`) is not part of this model; the rule assumed here is
      the usual one, and agrees with the conversions the tests pin down: every
      hyphen followed by a lower-case letter is dropped and the letter
      upper-cased, scanning left to right without overlap; every other
      character is kept. `CamelCaseRoundTrip`, `CamelCaseInjective` and, in
      the barrel rewrite, `OneExportPerIcon` hold for this assumed rule. */
  function KebabCaseToCamelCase(s: string): (r: string)
  {
    if s == [] then []
    else if |s| >= 2 && s[0] == '-' && IsLower(s[1]) then [ToUpper(s[1])] + KebabCaseToCamelCase(s[2..])
    else [s[0]] + KebabCaseToCamelCase(s[1..])
  }

  /** The reverse rendering: every upper-case letter becomes a hyphen and its
      lower-case form. */
  function CamelCaseToKebabCase(s: string): (r: string)
    ensures |r| >= |s|
  {
    if s == [] then []
    else if IsUpper(s[0]) then ['-', ToLower(s[0])] + CamelCaseToKebabCase(s[1..])
    else [s[0]] + CamelCaseToKebabCase(s[1..])
  }

  /** On names without upper-case letters the conversion loses nothing: the
      kebab-case name is recovered from its camelCase binding. */
  lemma {:induction false} CamelCaseRoundTrip(s: string)
    requires NoUpper(s)
    ensures CamelCaseToKebabCase(KebabCaseToCamelCase(s)) == s
    decreases |s|
  {
    if s != [] {
      if |s| >= 2 && s[0] == '-' && IsLower(s[1]) {
        var u := ToUpper(s[1]);
        CamelCaseRoundTrip(s[2..]);
        calc {
          CamelCaseToKebabCase(KebabCaseToCamelCase(s));
          CamelCaseToKebabCase([u] + KebabCaseToCamelCase(s[2..]));
          { assert ([u] + KebabCaseToCamelCase(s[2..]))[1..] == KebabCaseToCamelCase(s[2..]); }
          ['-', ToLower(u)] + CamelCaseToKebabCase(KebabCaseToCamelCase(s[2..]));
          ['-', s[1]] + s[2..];
          s;
        }
      } else {
        CamelCaseRoundTrip(s[1..]);
        var t := [s[0]] + KebabCaseToCamelCase(s[1..]);
        assert t[1..] == KebabCaseToCamelCase(s[1..]);
        assert CamelCaseToKebabCase(t) == [s[0]] + CamelCaseToKebabCase(t[1..]);
      }
    }
  }

  /** Distinct lower-case names never collide as camelCase bindings. */
  lemma CamelCaseInjective(a: string, b: string)
    requires NoUpper(a) && NoUpper(b)
    requires KebabCaseToCamelCase(a) == KebabCaseToCamelCase(b)
    ensures a == b
  {
    CamelCaseRoundTrip(a);
    CamelCaseRoundTrip(b);
  }

  /** A stretch without hyphens is copied unchanged. */
  lemma {:induction false} CamelCaseKeeps(a: string, s: string)
    requires '-' !in a
    ensures KebabCaseToCamelCase(a + s) == a + KebabCaseToCamelCase(s)
    decreases |a|
  {
    if a != [] {
      assert a[0] in a;
      assert (a + s)[0] == a[0] && (a + s)[1..] == a[1..] + s;
      assert KebabCaseToCamelCase(a + s) == [a[0]] + KebabCaseToCamelCase(a[1..] + s);
      CamelCaseKeeps(a[1..], s);
      calc {
        KebabCaseToCamelCase(a + s);
        [a[0]] + KebabCaseToCamelCase(a[1..] + s);
        [a[0]] + (a[1..] + KebabCaseToCamelCase(s));
        { assert a == [a[0]] + a[1..]; }
        a + KebabCaseToCamelCase(s);
      }
    } else {
      assert a + s == s;
    }
  }

  /** A hyphen and the lower-case letter after it become that letter upper-cased. */
  lemma CamelCaseJoins(l: char, s: string)
    requires IsLower(l)
    ensures KebabCaseToCamelCase(['-', l] + s) == [ToUpper(l)] + KebabCaseToCamelCase(s)
  {
    assert (['-', l] + s)[2..] == s;
  }

  /** A name with a single hyphen before a lower-case letter: the hyphen is
      dropped and the letter upper-cased, everything else kept. */
  lemma CamelCaseOneHyphen(a: string, l: char, b: string)
    requires '-' !in a && '-' !in b && IsLower(l)
    ensures KebabCaseToCamelCase(a + ['-', l] + b) == a + [ToUpper(l)] + b
  {
    var t := ['-', l] + b;
    assert a + ['-', l] + b == a + t;
    CamelCaseKeeps(a, t);
    CamelCaseJoins(l, b);
    CamelCaseKeeps(b, []);
    assert b + [] == b;
    calc {
      KebabCaseToCamelCase(a + t);
      a + KebabCaseToCamelCase(t);
      a + ([ToUpper(l)] + KebabCaseToCamelCase(b));
      a + ([ToUpper(l)] + b);
      a + [ToUpper(l)] + b;
    }
  }

  /** The conversions pinned by the source's tests. Each name is passed in
      rather than written in the conclusion, which keeps the solver from
      unfolding the conversion on the literal character by character. */
  lemma DryRunExample(s: string)
    requires s == "dry-run"
    ensures KebabCaseToCamelCase(s) == "dryRun"
  {
    var a, b := "dry", "un";
    assert '-' !in a;
    assert '-' !in b;
    CamelCaseOneHyphen(a, 'r', b);
    assert s == a + ['-', 'r'] + b;
  }

  /** The icon names of the source's barrel test, `logo-ionic` and
      `close-outline`, become the bindings `logoIonic` and `closeOutline`. */
  lemma IconBindingExamples(logo: string, close: string)
    requires logo == "logo-ionic" && close == "close-outline"
    ensures KebabCaseToCamelCase(logo) == "logoIonic"
    ensures KebabCaseToCamelCase(close) == "closeOutline"
  {
    assert '-' !in "logo" && '-' !in "onic";
    CamelCaseOneHyphen("logo", 'i', "onic");
    assert logo == "logo" + ['-', 'i'] + "onic";
    assert '-' !in "close" && '-' !in "utline";
    CamelCaseOneHyphen("close", 'o', "utline");
    assert close == "close" + ['-', 'o'] + "utline";
  }
}
