/** The string primitives the dashboard script relies on: JavaScript's
    `String.prototype.trim` and `String.prototype.split` with a one-character
    separator, together with `Join`, the inverse of `Split`. */
module Strings {

  /** The ECMAScript LineTerminator production: LF, CR, LINE SEPARATOR and
      PARAGRAPH SEPARATOR. A regular-expression `.` matches none of them. */
  predicate IsLineTerminator(c: char) {
    c == '\n' || c == '\r' || c == '\U{2028}' || c == '\U{2029}'
  }

  /** The characters `trim` removes: the ECMAScript WhiteSpace production (tab,
      vertical tab, form feed, byte-order mark and the Unicode "Zs" category)
      and every line terminator. */
  predicate IsSpace(c: char) {
    || IsLineTerminator(c)
    || c == '\t' || c == '\U{B}' || c == '\U{C}' || c == '\U{FEFF}'
    || c == ' ' || c == '\U{A0}' || c == '\U{1680}'
    || ('\U{2000}' <= c <= '\U{200A}')
    || c == '\U{202F}' || c == '\U{205F}' || c == '\U{3000}'
  }

  predicate AllSpace(s: string) {
    forall i :: 0 <= i < |s| ==> IsSpace(s[i])
  }

  predicate NoLineTerminator(s: string) {
    forall i :: 0 <= i < |s| ==> !IsLineTerminator(s[i])
  }

  lemma NoLineTerminatorNoNewline(s: string)
    requires NoLineTerminator(s)
    ensures '\n' !in s
  {
    assert forall j :: 0 <= j < |s| ==> s[j] != '\n';
  }

  lemma NoLineTerminatorConcat(a: string, b: string)
    requires NoLineTerminator(a) && NoLineTerminator(b)
    ensures NoLineTerminator(a + b)
  {
    forall i | 0 <= i < |a + b|
      ensures !IsLineTerminator((a + b)[i])
    {
      if i < |a| {
        assert (a + b)[i] == a[i];
      } else {
        assert (a + b)[i] == b[i - |a|];
      }
    }
  }

  /** Whitespace contains no non-whitespace character. */
  lemma SpaceHasNo(s: string, c: char)
    requires AllSpace(s) && !IsSpace(c)
    ensures c !in s
  {
    assert forall i :: 0 <= i < |s| ==> s[i] != c;
  }

  /** Neither the first nor the last character is whitespace. */
  predicate IsTrimmed(s: string) {
    s == [] || (!IsSpace(s[0]) && !IsSpace(s[|s| - 1]))
  }

  /** The number of whitespace characters `s` starts with. */
  function LeadingSpaces(s: string): (n: nat)
    ensures n <= |s|
  {
    if |s| > 0 && IsSpace(s[0]) then 1 + LeadingSpaces(s[1..]) else 0
  }

  /** The number of whitespace characters `s` ends with. */
  function TrailingSpaces(s: string): (n: nat)
    ensures n <= |s|
  {
    if |s| > 0 && IsSpace(s[|s| - 1]) then 1 + TrailingSpaces(s[..|s| - 1]) else 0
  }

  /** The leading run is whitespace, and it is maximal. */
  lemma {:induction false} LeadingSpacesRun(s: string)
    ensures AllSpace(s[..LeadingSpaces(s)])
    ensures LeadingSpaces(s) < |s| ==> !IsSpace(s[LeadingSpaces(s)])
    decreases |s|
  {
    if |s| > 0 && IsSpace(s[0]) {
      var n := LeadingSpaces(s[1..]);
      LeadingSpacesRun(s[1..]);
      assert s[..n + 1] == [s[0]] + s[1..][..n];
      assert n < |s| - 1 ==> s[n + 1] == s[1..][n];
    }
  }

  /** The trailing run is whitespace, and it is maximal. */
  lemma TrailingSpacesRun(s: string)
    ensures AllSpace(s[|s| - TrailingSpaces(s)..])
    ensures TrailingSpaces(s) < |s| ==> !IsSpace(s[|s| - 1 - TrailingSpaces(s)])
  {
    TrailingRunSpace(s);
    TrailingRunMaximal(s);
  }

  lemma {:induction false} TrailingRunSpace(s: string)
    ensures AllSpace(s[|s| - TrailingSpaces(s)..])
    decreases |s|
  {
    if |s| > 0 && IsSpace(s[|s| - 1]) {
      var init := s[..|s| - 1];
      var n := TrailingSpaces(init);
      TrailingRunSpace(init);
      var run := s[|s| - (n + 1)..];
      forall i | 0 <= i < |run|
        ensures IsSpace(run[i])
      {
        if i < n {
          assert run[i] == init[|init| - n..][i];
        } else {
          assert run[i] == s[|s| - 1];
        }
      }
    }
  }

  lemma {:induction false} TrailingRunMaximal(s: string)
    ensures TrailingSpaces(s) < |s| ==> !IsSpace(s[|s| - 1 - TrailingSpaces(s)])
    decreases |s|
  {
    if |s| > 0 && IsSpace(s[|s| - 1]) {
      var init := s[..|s| - 1];
      var n := TrailingSpaces(init);
      TrailingRunMaximal(init);
      assert n < |init| ==> s[|s| - 1 - (n + 1)] == init[|init| - 1 - n];
    }
  }

  /** Drops the leading whitespace. */
  function TrimStart(s: string): (r: string)
  {
    s[LeadingSpaces(s)..]
  }

  /** Drops the trailing whitespace. */
  function TrimEnd(s: string): (r: string)
  {
    s[..|s| - TrailingSpaces(s)]
  }

  /** `String.prototype.trim`: `s` with its leading and trailing whitespace
      removed. */
  function Trim(s: string): (r: string)
    ensures IsTrimmed(r)
    ensures |r| <= |s|
    ensures r == [] <==> AllSpace(s)
  {
    TrimEnds(s);
    TrimBlank(s);
    TrimEnd(TrimStart(s))
  }

  /** Neither end of the trimmed string is whitespace. */
  lemma TrimEnds(s: string)
    ensures IsTrimmed(TrimEnd(TrimStart(s)))
  {
    var t := TrimStart(s);
    var r := TrimEnd(t);
    if r != [] {
      var i, j := LeadingSpaces(s), TrailingSpaces(t);
      LeadingSpacesRun(s);
      TrailingSpacesRun(t);
      assert r[0] == s[i];
      assert r[|r| - 1] == t[|t| - 1 - j];
    }
  }

  /** The trimmed string is empty exactly when the whole string is
      whitespace. */
  lemma TrimBlank(s: string)
    ensures TrimEnd(TrimStart(s)) == [] <==> AllSpace(s)
  {
    var i := LeadingSpaces(s);
    var t := TrimStart(s);
    LeadingSpacesRun(s);
    if TrimEnd(t) == [] {
      TrailingSpacesRun(t);
      assert t[|t| - TrailingSpaces(t)..] == t;
      AllSpaceConcat(s[..i], t);
      assert s == s[..i] + t;
    } else {
      assert i < |s|;
    }
  }

  lemma AllSpaceConcat(a: string, b: string)
    requires AllSpace(a) && AllSpace(b)
    ensures AllSpace(a + b)
  {
    forall i | 0 <= i < |a + b|
      ensures IsSpace((a + b)[i])
    {
      if i < |a| {
        assert (a + b)[i] == a[i];
      } else {
        assert (a + b)[i] == b[i - |a|];
      }
    }
  }

  /** The trimmed string is the infix of `s` between a run of leading and a
      run of trailing whitespace. */
  lemma TrimInfix(s: string) returns (i: nat)
    ensures i + |Trim(s)| <= |s| && Trim(s) == s[i..i + |Trim(s)|]
    ensures AllSpace(s[..i]) && AllSpace(s[i + |Trim(s)|..])
  {
    i := LeadingSpaces(s);
    var t := TrimStart(s);
    LeadingSpacesRun(s);
    TrailingSpacesRun(t);
    assert s[i + |Trim(s)|..] == t[|t| - TrailingSpaces(t)..];
  }

  /** Trimming introduces no character. */
  lemma TrimChars(s: string)
    ensures forall c :: c in Trim(s) ==> c in s
  {
    var i := TrimInfix(s);
  }

  /** Trimming leaves an already trimmed string alone; in particular `Trim` is
      idempotent. */
  lemma TrimTrimmed(s: string)
    requires IsTrimmed(s)
    ensures Trim(s) == s
  {
    if s != [] {
      assert LeadingSpaces(s) == 0;
      assert TrimStart(s) == s;
      assert TrailingSpaces(s) == 0;
    }
  }

  /** Trimming removes exactly the whitespace padding around a trimmed
      string. */
  lemma TrimPadded(lead: string, s: string, trail: string)
    requires AllSpace(lead) && IsTrimmed(s) && AllSpace(trail)
    ensures Trim(lead + s + trail) == s
  {
    if s == [] {
      assert lead + s + trail == lead + trail;
      AllSpaceConcat(lead, trail);
    } else {
      var rest := s + trail;
      assert lead + s + trail == lead + rest;
      assert rest[0] == s[0];
      LeadingSpacesPadded(lead, rest);
      assert TrimStart(lead + rest) == rest;
      TrailingSpacesPadded(s, trail);
    }
  }

  lemma {:induction false} LeadingSpacesPadded(lead: string, s: string)
    requires AllSpace(lead) && (s == [] || !IsSpace(s[0]))
    ensures LeadingSpaces(lead + s) == |lead|
    decreases |lead|
  {
    if lead != [] {
      assert (lead + s)[1..] == lead[1..] + s;
      LeadingSpacesPadded(lead[1..], s);
    } else {
      assert lead + s == s;
    }
  }

  lemma {:induction false} TrailingSpacesPadded(s: string, trail: string)
    requires AllSpace(trail) && (s == [] || !IsSpace(s[|s| - 1]))
    ensures TrailingSpaces(s + trail) == |trail|
    decreases |trail|
  {
    if trail != [] {
      var n := |trail| - 1;
      assert (s + trail)[..|s + trail| - 1] == s + trail[..n];
      TrailingSpacesPadded(s, trail[..n]);
    } else {
      assert s + trail == s;
    }
  }

  /** Position of the first occurrence of `c` in `s`. */
  function IndexOf(s: string, c: char): (i: nat)
    requires c in s
    ensures i < |s| && s[i] == c && c !in s[..i]
  {
    if s[0] == c then 0
    else
      var j := IndexOf(s[1..], c);
      assert s[..j + 1] == [s[0]] + s[1..][..j];
      j + 1
  }

  /** No piece contains the character `c`. */
  predicate FreeOf(pieces: seq<string>, c: char) {
    forall i :: 0 <= i < |pieces| ==> c !in pieces[i]
  }

  /** Concatenates the pieces with `c` between consecutive pieces (JavaScript's
      `Array.prototype.join` with a one-character separator). */
  function Join(pieces: seq<string>, c: char): string
  {
    if |pieces| == 0 then []
    else if |pieces| == 1 then pieces[0]
    else pieces[0] + [c] + Join(pieces[1..], c)
  }

  /** `String.prototype.split` with a one-character separator: the maximal
      pieces of `s` free of `c`, in order. There is always at least one piece
      (the empty string splits into `[""]`), no piece contains the separator,
      and joining the pieces gives `s` back. */
  function Split(s: string, c: char): (r: seq<string>)
    ensures |r| >= 1
    ensures FreeOf(r, c)
    ensures Join(r, c) == s
    decreases |s|
  {
    if c !in s then [s]
    else
      var i := IndexOf(s, c);
      var rest := Split(s[i + 1..], c);
      var r := [s[..i]] + rest;
      assert r[1..] == rest;
      assert s == s[..i] + [c] + s[i + 1..];
      r
  }

  /** Splitting undoes joining when no piece contains the separator. */
  lemma {:induction false} SplitJoin(pieces: seq<string>, c: char)
    requires |pieces| >= 1
    requires FreeOf(pieces, c)
    ensures Split(Join(pieces, c), c) == pieces
    decreases |pieces|
  {
    if |pieces| == 1 {
      assert Join(pieces, c) == pieces[0];
    } else {
      var s := Join(pieces, c);
      var head := pieces[0];
      assert s == head + [c] + Join(pieces[1..], c);
      assert s[|head|] == c;
      assert s[..|head|] == head;
      assert IndexOf(s, c) == |head|;
      assert s[|head| + 1..] == Join(pieces[1..], c);
      SplitJoin(pieces[1..], c);
      assert pieces == [head] + pieces[1..];
    }
  }

  /** Joining two non-empty lists of pieces puts exactly one separator between
      them. */
  lemma {:induction false} JoinAppend(xs: seq<string>, ys: seq<string>, c: char)
    requires |xs| >= 1 && |ys| >= 1
    ensures Join(xs + ys, c) == Join(xs, c) + [c] + Join(ys, c)
    decreases |xs|
  {
    if |xs| == 1 {
      assert (xs + ys)[1..] == ys;
    } else {
      assert (xs + ys)[1..] == xs[1..] + ys;
      JoinAppend(xs[1..], ys, c);
    }
  }

  lemma FreeOfConcat(xs: seq<string>, ys: seq<string>, c: char)
    requires FreeOf(xs, c) && FreeOf(ys, c)
    ensures FreeOf(xs + ys, c)
  {
    forall i | 0 <= i < |xs + ys|
      ensures c !in (xs + ys)[i]
    {
      if i < |xs| {
        assert (xs + ys)[i] == xs[i];
      } else {
        assert (xs + ys)[i] == ys[i - |xs|];
      }
    }
  }

  /** Splitting at a separator the caller inserted: the pieces of `a`, then the
      pieces of `b`. */
  lemma SplitAppend(a: string, b: string, c: char)
    ensures Split(a + [c] + b, c) == Split(a, c) + Split(b, c)
  {
    var xs := Split(a, c);
    var ys := Split(b, c);
    var zs := xs + ys;
    JoinAppend(xs, ys, c);
    assert Join(zs, c) == a + [c] + b;
    FreeOfConcat(xs, ys, c);
    SplitJoin(zs, c);
  }
}
