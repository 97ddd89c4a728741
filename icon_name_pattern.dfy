/** The regular expression `{{\s*'([^']+)'\s*}}` that `0002-generate-use-icons.ts`
    applies to the source text of an `ion-icon` element with a bound name, to
    recover an icon name written as a quoted literal inside an interpolation,
    e.g. `name="{{ 'user' }}"`. `IconNameMatch` scans the text the way
    `String.prototype.match` does; `PatternAt` says declaratively what a match
    is; the lemmas show that the scan returns the capture of the leftmost match
    and returns nothing exactly when there is no match. */
module IconNamePattern {
  import opened Common
  import opened StringUtils

  /** The first position at or after `i` that is not white space. */
  function SkipWhitespace(s: string, i: nat): (j: nat)
    requires i <= |s|
    ensures i <= j <= |s|
    ensures forall p :: i <= p < j ==> IsJsWhitespace(s[p])
    ensures j < |s| ==> !IsJsWhitespace(s[j])
    decreases |s| - i
  {
    if i < |s| && IsJsWhitespace(s[i]) then SkipWhitespace(s, i + 1) else i
  }

  /** The first position at or after `i` holding a single quote (or `|s|`). */
  function SkipNonQuote(s: string, i: nat): (j: nat)
    requires i <= |s|
    ensures i <= j <= |s|
    ensures forall p :: i <= p < j ==> s[p] != '\''
    ensures j < |s| ==> s[j] == '\''
    decreases |s| - i
  {
    if i < |s| && s[i] != '\'' then SkipNonQuote(s, i + 1) else i
  }

  /** The regular expression matched at exactly position `i`, returning group 1.
      Each quantifier is followed by a character it cannot consume, so the
      greedy choice is the only one and no backtracking is needed. */
  function MatchAt(s: string, i: nat): Option<string>
    requires i <= |s|
  {
    if i + 2 <= |s| && s[i] == '{' && s[i + 1] == '{' then
      var j := SkipWhitespace(s, i + 2);
      if j < |s| && s[j] == '\'' then
        var k := SkipNonQuote(s, j + 1);
        if j + 1 < k < |s| then
          var e := SkipWhitespace(s, k + 1);
          if e + 2 <= |s| && s[e] == '}' && s[e + 1] == '}' then Some(s[j + 1..k]) else None
        else None
      else None
    else None
  }

  /** Try every start position from `i` on, leftmost first. */
  function MatchFrom(s: string, i: nat): Option<string>
    requires i <= |s|
    decreases |s| - i
  {
    if MatchAt(s, i).Some? then MatchAt(s, i)
    else if i == |s| then None
    else MatchFrom(s, i + 1)
  }

  /** `s.match(/{{\s*'([^']+)'\s*}}/)?.[1]`. */
  function IconNameMatch(s: string): Option<string>
  {
    MatchFrom(s, 0)
  }

  /** `s[i..e+2]` is `{{`, white space, a quote, one or more non-quote
      characters `s[j+1..k]`, a quote, white space and `}}`. */
  ghost predicate PatternAt(s: string, i: int, j: int, k: int, e: int) {
    && 0 <= i && i + 2 <= j < k < e && e + 2 <= |s|
    && s[i] == '{' && s[i + 1] == '{'
    && (forall p :: i + 2 <= p < j ==> IsJsWhitespace(s[p]))
    && s[j] == '\''
    && j + 1 < k
    && (forall p :: j + 1 <= p < k ==> s[p] != '\'')
    && s[k] == '\''
    && (forall p :: k + 1 <= p < e ==> IsJsWhitespace(s[p]))
    && s[e] == '}' && s[e + 1] == '}'
  }

  /** `MatchAt` is exact: it succeeds precisely on the positions where the
      pattern occurs, and returns the quoted text. */
  lemma MatchAtExact(s: string, i: nat)
    requires i <= |s|
    ensures MatchAt(s, i).Some? ==>
      exists j, k, e :: PatternAt(s, i, j, k, e) && MatchAt(s, i).value == s[j + 1..k]
    ensures forall j, k, e :: PatternAt(s, i, j, k, e) ==> MatchAt(s, i) == Some(s[j + 1..k])
  {
    if MatchAt(s, i).Some? {
      var j := SkipWhitespace(s, i + 2);
      var k := SkipNonQuote(s, j + 1);
      var e := SkipWhitespace(s, k + 1);
      assert PatternAt(s, i, j, k, e);
    }
    forall j, k, e | PatternAt(s, i, j, k, e)
      ensures MatchAt(s, i) == Some(s[j + 1..k])
    {
      var j' := SkipWhitespace(s, i + 2);
      assert j' == j;
      var k' := SkipNonQuote(s, j + 1);
      assert k' == k;
      var e' := SkipWhitespace(s, k + 1);
      assert e' == e;
    }
  }

  lemma {:induction false} MatchFromExact(s: string, i: nat)
    requires i <= |s|
    ensures MatchFrom(s, i).None? <==>
      forall p, j, k, e :: i <= p && PatternAt(s, p, j, k, e) ==> false
    ensures forall p, j, k, e ::
      i <= p && PatternAt(s, p, j, k, e)
      && (forall p', j', k', e' :: i <= p' < p ==> !PatternAt(s, p', j', k', e'))
      ==> MatchFrom(s, i) == Some(s[j + 1..k])
    decreases |s| - i
  {
    MatchAtExact(s, i);
    if MatchAt(s, i).None? && i < |s| {
      MatchFromExact(s, i + 1);
    }
    if MatchAt(s, i).None? && i == |s| {
      forall p, j, k, e | i <= p && PatternAt(s, p, j, k, e)
        ensures false
      {
      }
    }
  }

  /** The name recovered from the element text is the quoted text of the
      leftmost occurrence of the pattern, and there is none exactly when the
      pattern occurs nowhere. */
  lemma IconNameMatchExact(s: string)
    ensures IconNameMatch(s).None? <==> forall i, j, k, e :: !PatternAt(s, i, j, k, e)
    ensures forall i, j, k, e ::
      PatternAt(s, i, j, k, e) && (forall i', j', k', e' :: i' < i ==> !PatternAt(s, i', j', k', e'))
      ==> IconNameMatch(s) == Some(s[j + 1..k])
  {
    MatchFromExact(s, 0);
    forall i, j, k, e | PatternAt(s, i, j, k, e) ensures 0 <= i { }
  }

  /** A match at `i` comes with the positions of its parts. */
  lemma MatchAtCapture(s: string, i: nat) returns (j: int, k: int, e: int)
    requires i <= |s| && MatchAt(s, i).Some?
    ensures PatternAt(s, i, j, k, e) && MatchAt(s, i).value == s[j + 1..k]
  {
    j := SkipWhitespace(s, i + 2);
    k := SkipNonQuote(s, j + 1);
    e := SkipWhitespace(s, k + 1);
  }

  /** Whatever the scan returns is the quoted text of an occurrence at or after `i`. */
  lemma {:induction false} MatchFromCapture(s: string, i: nat) returns (p: int, j: int, k: int, e: int)
    requires i <= |s| && MatchFrom(s, i).Some?
    ensures i <= p && PatternAt(s, p, j, k, e) && MatchFrom(s, i).value == s[j + 1..k]
    decreases |s| - i
  {
    if MatchAt(s, i).Some? {
      p := i;
      j, k, e := MatchAtCapture(s, i);
    } else {
      p, j, k, e := MatchFromCapture(s, i + 1);
    }
  }

  /** A recovered name is never empty and never contains a quote. */
  lemma IconNameMatchShape(s: string)
    requires IconNameMatch(s).Some?
    ensures IconNameMatch(s).value != [] && '\'' !in IconNameMatch(s).value
  {
    var p, j, k, e := MatchFromCapture(s, 0);
    var name := s[j + 1..k];
    forall q | 0 <= q < |name| ensures name[q] != '\'' {
      assert name[q] == s[j + 1 + q];
    }
  }
}
