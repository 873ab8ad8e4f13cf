/**
 * The four functions of Go's `strings` package that the palette relies on:
 * `Fields`, `Join`, `TrimSpace` and `Contains`, over strings of Unicode
 * scalar values. Whitespace is Go's `unicode.IsSpace`.
 */
module GoStrings {

  /** Go's `unicode.IsSpace`: the ASCII blanks, NEL, NBSP and the other
      characters with the Unicode White_Space property. */
  predicate IsSpace(c: char) {
    var n := c as int;
    n == 0x09 || n == 0x0A || n == 0x0B || n == 0x0C || n == 0x0D || n == 0x20
    || n == 0x85 || n == 0xA0 || n == 0x1680 || (0x2000 <= n <= 0x200A)
    || n == 0x2028 || n == 0x2029 || n == 0x202F || n == 0x205F || n == 0x3000
  }

  predicate NoSpace(s: string) {
    forall i :: 0 <= i < |s| ==> !IsSpace(s[i])
  }

  predicate AllSpace(s: string) {
    forall i :: 0 <= i < |s| ==> IsSpace(s[i])
  }

  /** A token is what `Fields` produces: non-empty and free of whitespace. */
  predicate IsToken(w: string) {
    w != [] && NoSpace(w)
  }

  predicate AllTokens(ts: seq<string>) {
    forall i :: 0 <= i < |ts| ==> IsToken(ts[i])
  }

  /** Length of the longest whitespace-free prefix of `s`. */
  function TokenLen(s: string): (n: nat)
    ensures n <= |s|
    ensures NoSpace(s[..n])
    ensures n == |s| || IsSpace(s[n])
  {
    if s == [] || IsSpace(s[0]) then 0
    else
      var m := TokenLen(s[1..]);
      assert s[..1 + m] == [s[0]] + s[1..][..m];
      1 + m
  }

  /** `strings.Fields`: the maximal runs of non-whitespace characters, in order. */
  function Fields(s: string): (ts: seq<string>)
    ensures AllTokens(ts)
    decreases |s|
  {
    if s == [] then []
    else if IsSpace(s[0]) then Fields(s[1..])
    else
      var n := TokenLen(s);
      [s[..n]] + Fields(s[n..])
  }

  /** `strings.Join`: the elements with `sep` between consecutive ones. */
  function Join(elems: seq<string>, sep: string): string {
    if |elems| == 0 then ""
    else if |elems| == 1 then elems[0]
    else elems[0] + sep + Join(elems[1..], sep)
  }

  /** Number of whitespace characters `s` starts with. */
  function LeadingSpaces(s: string): (n: nat)
    ensures n <= |s|
    ensures AllSpace(s[..n])
    ensures n == |s| || !IsSpace(s[n])
  {
    if s == [] || !IsSpace(s[0]) then 0
    else
      var m := LeadingSpaces(s[1..]);
      assert s[..1 + m] == [s[0]] + s[1..][..m];
      1 + m
  }

  /** Number of whitespace characters `s` ends with. */
  function TrailingSpaces(s: string): (n: nat)
    ensures n <= |s|
    ensures AllSpace(s[|s| - n..])
    ensures n == |s| || !IsSpace(s[|s| - n - 1])
    ensures n == |s| ==> AllSpace(s)
  {
    if s == [] || !IsSpace(s[|s| - 1]) then 0
    else
      var front := s[..|s| - 1];
      var m := TrailingSpaces(front);
      assert s[|s| - (1 + m)..] == front[|front| - m..] + [s[|s| - 1]];
      assert s[|s| - |s|..] == s;
      1 + m
  }

  /** `s` is `r` with only whitespace before it, starting at `a`, and only
      whitespace after it. */
  predicate PaddedAt(s: string, r: string, a: nat) {
    a + |r| <= |s| && s[a..a + |r|] == r && AllSpace(s[..a]) && AllSpace(s[a + |r|..])
  }

  /** The two ends of `s[a..]` are slices of `s` itself. */
  lemma SlicesOfSuffix(s: string, a: nat, t: nat)
    requires a <= |s| && t <= |s| - a
    ensures s[a..][..|s| - a - t] == s[a..|s| - t]
    ensures s[a..][|s| - a - t..] == s[|s| - t..]
  {
  }

  lemma PaddedSlice(s: string, a: nat, b: nat)
    requires a <= b <= |s| && AllSpace(s[..a]) && AllSpace(s[b..])
    ensures PaddedAt(s, s[a..b], a)
  {
  }

  /** What cutting the leading and then the trailing whitespace leaves:
      `TrimEnds`, `TrimEmpty` and `TrimFields` give one fact each. */
  lemma TrimEnds(s: string, a: nat, t: nat)
    requires a == LeadingSpaces(s) && t == TrailingSpaces(s[a..])
    ensures var r := s[a..|s| - t];
      (r == [] || (!IsSpace(r[0]) && !IsSpace(r[|r| - 1]))) && PaddedAt(s, r, a)
  {
    var r := s[a..|s| - t];
    SlicesOfSuffix(s, a, t);
    PaddedSlice(s, a, |s| - t);
    if r != [] {
      assert r[0] == s[a] && r[|r| - 1] == s[a..][|s| - a - t - 1];
    }
  }

  lemma TrimEmpty(s: string, a: nat, t: nat)
    requires a + t <= |s| && AllSpace(s[..a]) && AllSpace(s[|s| - t..])
    requires a == |s| || !IsSpace(s[a])
    requires t == |s| - a ==> a == |s|
    ensures s[a..|s| - t] == [] <==> AllSpace(s)
  {
    if a == |s| {
      assert s[..a] == s;
    } else {
      assert s[a..|s| - t][0] == s[a];
    }
  }

  lemma TrimFields(s: string, a: nat, t: nat)
    requires a + t <= |s| && AllSpace(s[..a]) && AllSpace(s[|s| - t..])
    ensures Fields(s[a..|s| - t]) == Fields(s)
  {
    var left := s[a..];
    SlicesOfSuffix(s, a, t);
    assert |left| - t == |s| - a - t;
    assert AllSpace(left[|left| - t..]);
    FieldsDropLeadingSpaces(s, a);
    FieldsDropTrailingSpaces(left, t);
    assert left[..|left| - t] == s[a..|s| - t];
  }

  /** `strings.TrimSpace`: `s` without its leading and trailing whitespace. */
  function TrimSpace(s: string): (r: string)
    ensures r == [] || (!IsSpace(r[0]) && !IsSpace(r[|r| - 1]))
    ensures r == [] <==> AllSpace(s)
    ensures Fields(r) == Fields(s)
    ensures exists a: nat :: PaddedAt(s, r, a)
  {
    var a := LeadingSpaces(s);
    var t := TrailingSpaces(s[a..]);
    TrimEnds(s, a, t);
    SlicesOfSuffix(s, a, t);
    TrimEmpty(s, a, t);
    TrimFields(s, a, t);
    s[a..|s| - t]
  }

  /** `sub` occurs in `s` starting at offset `i`. */
  predicate OccursAt(s: string, sub: string, i: nat) {
    i + |sub| <= |s| && s[i..i + |sub|] == sub
  }

  /** `strings.Contains`: `sub` occurs in `s` at some offset. */
  predicate Contains(s: string, sub: string) {
    exists i: nat | i <= |s| :: OccursAt(s, sub, i)
  }

  // ---------------------------------------------------------------------
  // Lemmas about Fields and Join
  // ---------------------------------------------------------------------

  /** A whitespace-free prefix ends a token wherever the rest starts with whitespace. */
  lemma {:induction false} TokenLenAppend(t: string, u: string)
    requires TokenLen(t) < |t| || (u != [] && IsSpace(u[0]))
    ensures TokenLen(t + u) == TokenLen(t)
  {
    if t == [] {
    } else if IsSpace(t[0]) {
    } else {
      assert (t + u)[1..] == t[1..] + u;
      TokenLenAppend(t[1..], u);
    }
  }

  /** A whitespace character separates the fields on either side of it. */
  lemma {:induction false} FieldsSplitAtSpace(t: string, c: char, u: string)
    requires IsSpace(c)
    ensures Fields(t + [c] + u) == Fields(t) + Fields(u)
    decreases |t|
  {
    var s := t + [c] + u;
    if t == [] {
      assert s[1..] == u;
    } else if IsSpace(t[0]) {
      assert s[1..] == t[1..] + [c] + u;
      FieldsSplitAtSpace(t[1..], c, u);
    } else {
      var n := TokenLen(t);
      TokenLenAppend(t, [c] + u);
      assert s == t + ([c] + u);
      assert s[..n] == t[..n];
      assert s[n..] == t[n..] + [c] + u;
      FieldsSplitAtSpace(t[n..], c, u);
    }
  }

  /** Leading whitespace adds no field. */
  lemma {:induction false} FieldsDropLeadingSpaces(s: string, n: nat)
    requires n <= |s| && AllSpace(s[..n])
    ensures Fields(s[n..]) == Fields(s)
    decreases n
  {
    if n > 0 {
      var blanks, rest := s[..n], s[1..];
      assert s[0] == blanks[0];
      var fewer := rest[..n - 1];
      forall i | 0 <= i < |fewer|
        ensures IsSpace(fewer[i])
      {
        assert fewer[i] == blanks[i + 1];
      }
      FieldsDropLeadingSpaces(rest, n - 1);
      assert rest[n - 1..] == s[n..];
    } else {
      assert s[0..] == s;
    }
  }

  /** A trailing whitespace character adds no field. */
  lemma FieldsDropTrailingSpace(s: string)
    requires s != [] && IsSpace(s[|s| - 1])
    ensures Fields(s[..|s| - 1]) == Fields(s)
  {
    var front := s[..|s| - 1];
    var empty: string := [];
    assert Fields(empty) == [];
    assert s == front + [s[|s| - 1]] + empty;
    FieldsSplitAtSpace(front, s[|s| - 1], empty);
  }

  /** Trailing whitespace adds no field. */
  lemma {:induction false} FieldsDropTrailingSpaces(s: string, n: nat)
    requires n <= |s| && AllSpace(s[|s| - n..])
    ensures Fields(s[..|s| - n]) == Fields(s)
    decreases n
  {
    if n > 0 {
      var blanks, front := s[|s| - n..], s[..|s| - 1];
      assert s[|s| - 1] == blanks[n - 1];
      FieldsDropTrailingSpace(s);
      var fewer := front[|front| - (n - 1)..];
      forall i | 0 <= i < |fewer|
        ensures IsSpace(fewer[i])
      {
        assert fewer[i] == blanks[i];
      }
      FieldsDropTrailingSpaces(front, n - 1);
      assert front[..|front| - (n - 1)] == s[..|s| - n];
    } else {
      assert s[..|s|] == s;
    }
  }

  /** A token on its own is a single field. */
  lemma FieldsOfToken(w: string)
    requires IsToken(w)
    ensures Fields(w) == [w]
  {
    var n := TokenLen(w);
    assert n == |w|;
    assert w[..n] == w && w[n..] == [];
  }

  /** Joining tokens with single spaces and splitting again gives them back. */
  lemma {:induction false} FieldsOfJoin(ts: seq<string>)
    requires AllTokens(ts)
    ensures Fields(Join(ts, " ")) == ts
  {
    if |ts| == 0 {
    } else if |ts| == 1 {
      FieldsOfToken(ts[0]);
    } else {
      FieldsOfJoin(ts[1..]);
      FieldsOfToken(ts[0]);
      assert Join(ts, " ") == ts[0] + [' '] + Join(ts[1..], " ");
      FieldsSplitAtSpace(ts[0], ' ', Join(ts[1..], " "));
      assert ts == [ts[0]] + ts[1..];
    }
  }

  /** Splitting twice is splitting once: `Fields` is stable under re-joining. */
  lemma FieldsJoinFields(s: string)
    ensures Fields(Join(Fields(s), " ")) == Fields(s)
  {
    FieldsOfJoin(Fields(s));
  }

  /** `s` has no leading or trailing whitespace, and every whitespace
      character in it is a lone ASCII space between two non-blanks. */
  predicate SingleSpaced(s: string) {
    && (s == [] || (!IsSpace(s[0]) && !IsSpace(s[|s| - 1])))
    && (forall i :: 0 <= i < |s| && IsSpace(s[i]) ==> s[i] == ' ')
    && (forall i, j :: 0 <= i < |s| && j == i + 1 < |s| ==> !IsSpace(s[i]) || !IsSpace(s[j]))
  }

  lemma SingleSpacedSuffix(s: string, k: nat)
    requires SingleSpaced(s) && k <= |s|
    requires k == |s| || !IsSpace(s[k])
    ensures SingleSpaced(s[k..])
  {
    var t := s[k..];
    if t != [] {
      assert t[0] == s[k] && t[|t| - 1] == s[|s| - 1];
    }
    forall i | 0 <= i < |t| && IsSpace(t[i])
      ensures t[i] == ' '
    {
      assert t[i] == s[k + i];
    }
    forall i, j | 0 <= i < |t| && j == i + 1 < |t|
      ensures !IsSpace(t[i]) || !IsSpace(t[j])
    {
      assert t[i] == s[k + i] && t[j] == s[k + j];
    }
  }

  /** A string starting with a non-blank has a first field. */
  lemma FieldsNonEmpty(t: string)
    requires t != [] && !IsSpace(t[0])
    ensures Fields(t) != [] && Fields(t)[0] == t[..TokenLen(t)]
  {
  }

  /** A whitespace character in front adds no field. */
  lemma FieldsSkipSpace(t: string)
    requires t != [] && IsSpace(t[0])
    ensures Fields(t) == Fields(t[1..])
  {
  }

  /** A single-spaced string longer than its first word continues with one
      space and another single-spaced string holding the remaining words. */
  lemma SingleSpacedSplit(s: string)
    requires SingleSpaced(s) && s != [] && TokenLen(s) < |s|
    ensures var n := TokenLen(s);
      n + 1 < |s| && s == s[..n] + " " + s[n + 1..]
      && SingleSpaced(s[n + 1..]) && Fields(s) == [s[..n]] + Fields(s[n + 1..])
  {
    var n := TokenLen(s);
    SpaceAfterFirstWord(s, n);
    SingleSpacedSuffix(s, n + 1);
    FieldsAfterFirstWord(s, n);
  }

  lemma SpaceAfterFirstWord(s: string, n: nat)
    requires SingleSpaced(s) && n < |s| && IsSpace(s[n])
    ensures s[n] == ' ' && n + 1 < |s| && !IsSpace(s[n + 1])
    ensures s == s[..n] + " " + s[n + 1..]
  {
    assert !IsSpace(s[n]) || !IsSpace(s[n + 1]);
  }

  lemma FieldsAfterFirstWord(s: string, n: nat)
    requires s != [] && !IsSpace(s[0]) && n == TokenLen(s) && n + 1 < |s| && IsSpace(s[n])
    ensures Fields(s) == [s[..n]] + Fields(s[n + 1..])
  {
    assert s[n..][1..] == s[n + 1..];
    FieldsSkipSpace(s[n..]);
  }

  lemma JoinCons(ts: seq<string>)
    requires |ts| >= 2
    ensures Join(ts, " ") == ts[0] + " " + Join(ts[1..], " ")
  {
  }

  /** A string has no fields exactly when it is all whitespace. */
  lemma NoFieldsIffAllSpace(text: string)
    ensures Fields(text) == [] <==> AllSpace(text)
  {
    var t := TrimSpace(text);
    if t != [] {
      assert Fields(t) == [t[..TokenLen(t)]] + Fields(t[TokenLen(t)..]);
    }
  }

  /** A string with non-blank ends that is not a single token has at least
      two fields: it has a blank inside, with a field on either side. */
  lemma FieldsOfNonToken(t: string)
    requires t != [] && !IsSpace(t[0]) && !IsSpace(t[|t| - 1]) && !IsToken(t)
    ensures |Fields(t)| >= 2
  {
    var k :| 0 <= k < |t| && IsSpace(t[k]);
    var front, back := t[..k], t[k + 1..];
    assert t == front + [t[k]] + back;
    FieldsSplitAtSpace(front, t[k], back);
    assert front[0] == t[0];
    FieldsNonEmpty(front);
    assert back[|back| - 1] == t[|t| - 1];
    NoFieldsIffAllSpace(back);
  }

  /** A line that is not blank and does not trim to one token has at least
      two fields. */
  lemma TrimmedNonToken(s: string)
    requires !AllSpace(s) && !IsToken(TrimSpace(s))
    ensures |Fields(s)| >= 2
  {
    var r := TrimSpace(s);
    assert r != [] && !IsSpace(r[0]) && !IsSpace(r[|r| - 1]);
    FieldsOfNonToken(r);
  }

  /** A string splits into itself alone exactly when it is a token. */
  lemma FieldsSingletonIff(t: string)
    ensures Fields(t) == [t] <==> IsToken(t)
  {
    if IsToken(t) {
      FieldsOfToken(t);
    }
    if Fields(t) == [t] {
      assert Fields(t)[0] == t;
    }
  }

  /** Re-joining the words of a single-spaced string gives the string back. */
  lemma {:induction false} JoinFieldsOfSingleSpaced(s: string)
    requires SingleSpaced(s)
    ensures Join(Fields(s), " ") == s
    decreases |s|
  {
    if s != [] {
      var n := TokenLen(s);
      if n == |s| {
        assert s[n..] == [] && s[..n] == s;
      } else {
        SingleSpacedSplit(s);
        var rest := s[n + 1..];
        assert !IsSpace(rest[0]);
        FieldsNonEmpty(rest);
        JoinFieldsOfSingleSpaced(rest);
        JoinCons(Fields(s));
        assert Fields(s)[1..] == Fields(rest);
      }
    }
  }

  lemma SingleSpacedCons(a: string, b: string)
    requires IsToken(a) && SingleSpaced(b) && b != []
    ensures SingleSpaced(a + " " + b)
  {
    var s := a + " " + b;
    assert s[0] == a[0] && s[|s| - 1] == b[|b| - 1];
    forall i | 0 <= i < |s| && IsSpace(s[i])
      ensures s[i] == ' '
    {
      if i > |a| {
        assert s[i] == b[i - |a| - 1];
      }
    }
    forall i, j | 0 <= i < |s| && j == i + 1 < |s|
      ensures !IsSpace(s[i]) || !IsSpace(s[j])
    {
      if i < |a| {
        assert s[i] == a[i];
      } else if i == |a| {
        assert s[j] == b[0];
      } else {
        assert s[i] == b[i - |a| - 1] && s[j] == b[j - |a| - 1];
      }
    }
  }

  /** Joining tokens with single spaces always gives a single-spaced string. */
  lemma {:induction false} JoinOfTokensSingleSpaced(ts: seq<string>)
    requires AllTokens(ts)
    ensures SingleSpaced(Join(ts, " "))
  {
    if |ts| == 0 {
    } else if |ts| == 1 {
      assert IsToken(ts[0]);
    } else {
      JoinOfTokensSingleSpaced(ts[1..]);
      assert IsToken(ts[1]);
      assert Join(ts[1..], " ") != [] by {
        if |ts| == 2 {
        } else {
          assert Join(ts[1..], " ") == ts[1] + " " + Join(ts[2..], " ");
        }
      }
      SingleSpacedCons(ts[0], Join(ts[1..], " "));
    }
  }

  /** Re-joining the fields of `s` with single spaces gives `s` back exactly
      when `s` is already single-spaced; otherwise whitespace runs collapse. */
  lemma JoinFieldsIdentityIff(s: string)
    ensures Join(Fields(s), " ") == s <==> SingleSpaced(s)
  {
    if SingleSpaced(s) {
      JoinFieldsOfSingleSpaced(s);
    }
    JoinOfTokensSingleSpaced(Fields(s));
  }

  /** A character that does not occur in `s` rules out every `sub` containing it. */
  lemma NotContainsByMissingChar(s: string, sub: string, k: nat)
    requires k < |sub|
    requires forall j :: 0 <= j < |s| ==> s[j] != sub[k]
    ensures !Contains(s, sub)
  {
    forall i: nat | i + |sub| <= |s|
      ensures !OccursAt(s, sub, i)
    {
      assert s[i..i + |sub|][k] == s[i + k];
    }
  }
}
