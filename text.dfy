/** Option type for values the browser may or may not produce. */
module Optional {
  datatype Option<+T> = None | Some(value: T)
}

/**
 * The JavaScript string operations the search pipeline relies on:
 * `includes`, `split` with a string separator, `replace` with a string
 * pattern (first occurrence only) and `trim`.
 */
module Text {
  import opened Optional

  /** `sub` occurs in `s` starting at index `i`. */
  predicate OccursAt(s: string, sub: string, i: int) {
    0 <= i && i + |sub| <= |s| && s[i..i + |sub|] == sub
  }

  /** `i` is the first occurrence of `sub` in `s` at or after `from`. */
  ghost predicate FirstAt(s: string, sub: string, from: int, i: int) {
    from <= i && OccursAt(s, sub, i) && forall j :: from <= j < i ==> !OccursAt(s, sub, j)
  }

  /**
   * `k` is where the segment that starts at `from` ends when `s` is cut at
   * `sep`: the next occurrence at or after `from`, or the end of `s`.
   */
  ghost predicate SegmentEndsAt(s: string, sep: string, from: int, k: int) {
    FirstAt(s, sep, from, k) || (k == |s| && forall j :: from <= j ==> !OccursAt(s, sep, j))
  }

  /** `indexOf(sub, from)`: the first occurrence of `sub` at or after `from`. */
  function IndexOfFrom(s: string, sub: string, from: nat): (r: Option<nat>)
    ensures r.Some? ==> FirstAt(s, sub, from, r.value)
    ensures r.None? ==> forall j :: from <= j ==> !OccursAt(s, sub, j)
    decreases |s| - from
  {
    if from + |sub| > |s| then None
    else if s[from..from + |sub|] == sub then Some(from)
    else IndexOfFrom(s, sub, from + 1)
  }

  function IndexOf(s: string, sub: string): (r: Option<nat>)
    ensures r.Some? ==> FirstAt(s, sub, 0, r.value)
    ensures r.None? ==> forall j :: 0 <= j ==> !OccursAt(s, sub, j)
  {
    IndexOfFrom(s, sub, 0)
  }

  /** `s.includes(sub)`. */
  function Contains(s: string, sub: string): (b: bool)
    ensures b <==> exists i :: OccursAt(s, sub, i)
  {
    IndexOf(s, sub).Some?
  }

  /** There is only one first occurrence. */
  lemma FirstAtUnique(s: string, sub: string, from: int, i: int, j: int)
    requires FirstAt(s, sub, from, i) && FirstAt(s, sub, from, j)
    ensures i == j
  {
  }

  /** `IndexOfFrom` finds exactly the first occurrence. */
  lemma IndexOfFromIs(s: string, sub: string, from: nat, i: int)
    requires FirstAt(s, sub, from, i)
    ensures IndexOfFrom(s, sub, from) == Some(i)
  {
    var r := IndexOfFrom(s, sub, from);
    if r.Some? {
      FirstAtUnique(s, sub, from, i, r.value);
    }
  }

  /** Occurrences in a slice are occurrences in the whole string, shifted. */
  lemma OccursInSlice(s: string, sub: string, p: nat, i: nat, j: int)
    requires p <= i <= |s|
    ensures OccursAt(s[p..i], sub, j) ==> OccursAt(s, sub, p + j) && p + j + |sub| <= i
  {
    if 0 <= j && j + |sub| <= i - p {
      var t := s[p..i];
      var u, w := t[j..j + |sub|], s[p + j..p + j + |sub|];
      assert u == w by {
        forall x | 0 <= x < |sub| ensures u[x] == w[x] {
          assert t[j + x] == s[p + j + x];
        }
      }
    }
  }

  /** The inverse of `Split`: the parts glued back together with `sep`. */
  function Join(parts: seq<string>, sep: string): string {
    if parts == [] then ""
    else if |parts| == 1 then parts[0]
    else parts[0] + sep + Join(parts[1..], sep)
  }

  /**
   * `s.split(sep)` for a non-empty string separator: the text is cut at
   * every occurrence of `sep`, found left to right without overlap.
   */
  function Split(s: string, sep: string): (parts: seq<string>)
    requires |sep| > 0
    ensures |parts| >= 1
  {
    SplitFrom(s, sep, 0)
  }

  /** The parts of `s` from index `p` on, the search for `sep` resuming at `p`. */
  function SplitFrom(s: string, sep: string, p: nat): (parts: seq<string>)
    requires |sep| > 0 && p <= |s|
    ensures |parts| >= 1
    decreases |s| - p
  {
    match IndexOfFrom(s, sep, p)
    case None => [s[p..]]
    case Some(i) => [s[p..i]] + SplitFrom(s, sep, i + |sep|)
  }

  /** `Join` undoes `Split`: the parts glued back with the separator give the text. */
  lemma JoinSplit(s: string, sep: string)
    requires |sep| > 0
    ensures Join(Split(s, sep), sep) == s
  {
    JoinSplitFrom(s, sep, 0);
  }

  /** `Join` undoes `SplitFrom`: it gives back the text from `p` on. */
  lemma {:induction false} JoinSplitFrom(s: string, sep: string, p: nat)
    requires |sep| > 0 && p <= |s|
    ensures Join(SplitFrom(s, sep, p), sep) == s[p..]
    decreases |s| - p
  {
    match IndexOfFrom(s, sep, p)
    case None =>
    case Some(i) =>
      var m := i + |sep|;
      var rest := SplitFrom(s, sep, m);
      assert SplitFrom(s, sep, p) == [s[p..i]] + rest;
      JoinSplitFrom(s, sep, m);
      JoinCons(s[p..i], rest, sep);
      Reassemble(s, sep, p, i);
  }

  /** Gluing a head in front of a non-empty list of parts. */
  lemma JoinCons(head: string, parts: seq<string>, sep: string)
    requires |parts| >= 1
    ensures Join([head] + parts, sep) == head + sep + Join(parts, sep)
  {
    assert ([head] + parts)[1..] == parts;
  }

  /** A suffix is the slice up to an occurrence, the occurrence and the rest. */
  lemma Reassemble(s: string, sub: string, p: nat, i: nat)
    requires p <= i && OccursAt(s, sub, i)
    ensures s[p..] == s[p..i] + sub + s[i + |sub|..]
  {
    assert s[p..] == s[p..i] + s[i..i + |sub|] + s[i + |sub|..];
  }

  /** No part that `Split` yields holds the separator. */
  lemma SplitPartsFree(s: string, sep: string)
    requires |sep| > 0
    ensures forall k :: 0 <= k < |Split(s, sep)| ==> !Contains(Split(s, sep)[k], sep)
  {
    SplitFromPartsFree(s, sep, 0);
  }

  /** No part that `SplitFrom` yields holds the separator. */
  lemma {:induction false} SplitFromPartsFree(s: string, sep: string, p: nat)
    requires |sep| > 0 && p <= |s|
    ensures forall k :: 0 <= k < |SplitFrom(s, sep, p)| ==> !Contains(SplitFrom(s, sep, p)[k], sep)
    decreases |s| - p
  {
    match IndexOfFrom(s, sep, p)
    case None =>
      SliceFree(s, sep, p, |s|);
      assert s[p..|s|] == s[p..];
    case Some(i) =>
      var rest := SplitFrom(s, sep, i + |sep|);
      SplitFromPartsFree(s, sep, i + |sep|);
      SliceFree(s, sep, p, i);
      var parts := SplitFrom(s, sep, p);
      assert parts == [s[p..i]] + rest;
      forall k | 0 <= k < |parts| ensures !Contains(parts[k], sep) {
        if k > 0 {
          assert parts[k] == rest[k - 1];
        }
      }
  }

  /** A slice with no occurrence starting in it before its end holds no occurrence. */
  lemma SliceFree(s: string, sub: string, p: nat, i: nat)
    requires |sub| > 0 && p <= i <= |s|
    requires forall j :: p <= j < i ==> !OccursAt(s, sub, j)
    ensures !Contains(s[p..i], sub)
  {
    forall j | OccursAt(s[p..i], sub, j) ensures false {
      OccursInSlice(s, sub, p, i, j);
    }
  }

  /**
   * The first two parts of `Split`: the text before the first separator and
   * the text between the first and the second one (or the end).
   */
  lemma SplitFirstTwo(s: string, sep: string, i: nat, k: nat)
    requires |sep| > 0
    requires FirstAt(s, sep, 0, i)
    requires SegmentEndsAt(s, sep, i + |sep|, k)
    ensures |Split(s, sep)| >= 2
    ensures Split(s, sep)[0] == s[..i]
    ensures i + |sep| <= k <= |s| && Split(s, sep)[1] == s[i + |sep|..k]
  {
    SplitFirst(s, sep, i);
    SplitSecond(s, sep, i, k);
  }

  /** The first part of `Split` ends at the first separator. */
  lemma SplitFirst(s: string, sep: string, i: nat)
    requires |sep| > 0
    requires FirstAt(s, sep, 0, i)
    ensures Split(s, sep)[0] == s[..i]
  {
    SplitAt(s, sep, i);
  }

  /** The second part of `Split` runs from the first separator to the next one or the end. */
  lemma SplitSecond(s: string, sep: string, i: nat, k: nat)
    requires |sep| > 0
    requires FirstAt(s, sep, 0, i)
    requires SegmentEndsAt(s, sep, i + |sep|, k)
    ensures i + |sep| <= k <= |s| && |Split(s, sep)| >= 2 && Split(s, sep)[1] == s[i + |sep|..k]
  {
    var m := i + |sep|;
    SplitAt(s, sep, i);
    SplitFromHead(s, sep, m, k);
    ConsParts(Split(s, sep), s[..i], SplitFrom(s, sep, m));
  }

  /** The second element of a list that starts with `head`. */
  lemma ConsParts(parts: seq<string>, head: string, rest: seq<string>)
    requires |rest| >= 1 && parts == [head] + rest
    ensures |parts| >= 2 && parts[1] == rest[0]
  {
  }

  /** Cutting at the first occurrence `i`. */
  lemma SplitAt(s: string, sep: string, i: nat)
    requires |sep| > 0
    requires FirstAt(s, sep, 0, i)
    ensures i + |sep| <= |s| && Split(s, sep) == [s[..i]] + SplitFrom(s, sep, i + |sep|)
  {
    IndexOfFromIs(s, sep, 0, i);
    assert s[0..i] == s[..i];
  }

  /** The first part from `m` on ends where the segment that starts at `m` ends. */
  lemma SplitFromHead(s: string, sep: string, m: nat, k: nat)
    requires |sep| > 0 && m <= |s|
    requires SegmentEndsAt(s, sep, m, k)
    ensures m <= k <= |s| && SplitFrom(s, sep, m)[0] == s[m..k]
  {
    if FirstAt(s, sep, m, k) {
      IndexOfFromIs(s, sep, m, k);
    } else {
      assert IndexOfFrom(s, sep, m).None?;
    }
  }

  /**
   * `s.replace(pat, rep)` with a string pattern: only the first occurrence
   * is replaced.
   */
  function ReplaceFirst(s: string, pat: string, rep: string): (r: string)
    ensures (forall j :: 0 <= j ==> !OccursAt(s, pat, j)) ==> r == s
    ensures forall i :: FirstAt(s, pat, 0, i) ==> r == s[..i] + rep + s[i + |pat|..]
  {
    match IndexOf(s, pat)
    case None => s
    case Some(i) =>
      assert forall i' :: FirstAt(s, pat, 0, i') ==> i' == i by {
        forall i' | FirstAt(s, pat, 0, i') ensures i' == i {
          FirstAtUnique(s, pat, 0, i', i);
        }
      }
      s[..i] + rep + s[i + |pat|..]
  }

  /**
   * The characters `String.prototype.trim` removes: the ECMAScript
   * WhiteSpace and LineTerminator code points.
   */
  predicate IsWhiteSpace(c: char) {
    c == '\t' || c == '\n' || c == '\U{000B}' || c == '\U{000C}' || c == '\r' || c == ' '
    || c == '\U{00A0}' || c == '\U{1680}' || ('\U{2000}' <= c <= '\U{200A}')
    || c == '\U{2028}' || c == '\U{2029}' || c == '\U{202F}' || c == '\U{205F}'
    || c == '\U{3000}' || c == '\U{FEFF}'
  }

  /** Drops the white space at the front: what is left is a suffix. */
  function TrimStart(s: string): (r: string)
    ensures |r| <= |s| && r == s[|s| - |r|..]
    ensures forall k :: 0 <= k < |s| - |r| ==> IsWhiteSpace(s[k])
    ensures r == [] || !IsWhiteSpace(r[0])
  {
    if |s| > 0 && IsWhiteSpace(s[0]) then TrimStart(s[1..]) else s
  }

  /** Drops the white space at the back: what is left is a prefix. */
  function TrimEnd(s: string): (r: string)
    ensures |r| <= |s| && r == s[..|r|]
    ensures forall k :: |r| <= k < |s| ==> IsWhiteSpace(s[k])
    ensures r == [] || !IsWhiteSpace(r[|r| - 1])
  {
    if |s| > 0 && IsWhiteSpace(s[|s| - 1]) then TrimEnd(s[..|s| - 1]) else s
  }

  /** `s.trim()`. */
  function Trim(s: string): string {
    TrimEnd(TrimStart(s))
  }

  /**
   * What `Trim` returns is the middle of `s`: the slice that starts at `i`,
   * with only white space outside it.
   */
  lemma TrimIsMiddle(s: string) returns (i: nat)
    ensures i + |Trim(s)| <= |s| && Trim(s) == s[i..i + |Trim(s)|]
    ensures forall k :: 0 <= k < i ==> IsWhiteSpace(s[k])
    ensures forall k :: i + |Trim(s)| <= k < |s| ==> IsWhiteSpace(s[k])
  {
    var u := TrimStart(s);
    var r := TrimEnd(u);
    i := |s| - |u|;
    assert Trim(s) == r;
    MiddleOfSuffix(s, u, r, i);
  }

  /** A prefix `r` of the suffix `u` of `s` that starts at `i`, with white space past `r`. */
  lemma MiddleOfSuffix(s: string, u: string, r: string, i: nat)
    requires i <= |s| && u == s[i..]
    requires |r| <= |u| && r == u[..|r|]
    requires forall k :: |r| <= k < |u| ==> IsWhiteSpace(u[k])
    ensures i + |r| <= |s| && r == s[i..i + |r|]
    ensures forall k :: i + |r| <= k < |s| ==> IsWhiteSpace(s[k])
  {
    forall k | i + |r| <= k < |s| ensures IsWhiteSpace(s[k]) {
      assert s[k] == u[k - i];
    }
  }

  /** What `Trim` returns has no white space at either of its ends. */
  lemma TrimEdges(s: string)
    ensures Trim(s) == [] || (!IsWhiteSpace(Trim(s)[0]) && !IsWhiteSpace(Trim(s)[|Trim(s)| - 1]))
  {
    var u := TrimStart(s);
    var r := TrimEnd(u);
    assert Trim(s) == r;
    if r != [] {
      assert r[0] == u[0];
    }
  }

  /** Text with no white space at either end is left as it is. */
  lemma TrimKeeps(s: string)
    requires s == [] || (!IsWhiteSpace(s[0]) && !IsWhiteSpace(s[|s| - 1]))
    ensures Trim(s) == s
  {
    assert TrimStart(s) == s;
  }

  /** Trimming twice is trimming once. */
  lemma TrimIdempotent(s: string)
    ensures Trim(Trim(s)) == Trim(s)
  {
    var r := Trim(s);
    assert r == [] || !IsWhiteSpace(r[0]);
    assert r == TrimEnd(TrimStart(s));
    TrimKeeps(r);
  }
}
