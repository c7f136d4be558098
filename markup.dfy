/**
 * The tag stripping the JSON source applies to titles and descriptions:
 * `text.replace(/<[^>]+>/g, "")`. The pattern matches a `<`, at least one
 * character that is not `>`, and a `>`; the global replacement removes the
 * matches found scanning left to right, each search resuming after the
 * previous match.
 */
module Markup {
  import opened Optional

  /** The first index at or after `from` that holds `c`. */
  function FindChar(s: string, c: char, from: nat): (r: Option<nat>)
    ensures r.Some? ==> (from <= r.value < |s| && s[r.value] == c
                         && forall k :: from <= k < r.value ==> s[k] != c)
    ensures r.None? ==> forall k :: from <= k < |s| ==> s[k] != c
    decreases |s| - from
  {
    if from >= |s| then None
    else if s[from] == c then Some(from)
    else FindChar(s, c, from + 1)
  }

  /** The first `n` characters of `s` are a match of `<[^>]+>`. */
  ghost predicate TagOfLength(s: string, n: int) {
    3 <= n <= |s| && s[0] == '<' && s[n - 1] == '>'
    && forall k :: 1 <= k < n - 1 ==> s[k] != '>'
  }

  /**
   * The length of the match of `<[^>]+>` at the start of `s`, if there is
   * one. The greedy `[^>]+` stops at the first `>`, so there is at most one.
   */
  function TagLength(s: string): (r: Option<nat>)
    ensures r.Some? ==> TagOfLength(s, r.value)
    ensures r.None? ==> forall n :: !TagOfLength(s, n)
  {
    if |s| > 0 && s[0] == '<' then
      match FindChar(s, '>', 1)
      case Some(j) => if j >= 2 then Some(j + 1) else None
      case None => None
    else None
  }

  /** No match of the pattern starts anywhere in `s`. */
  ghost predicate TagFree(s: string) {
    forall i :: 0 <= i < |s| ==> TagLength(s[i..]).None?
  }

  /** The global replacement of `<[^>]+>` by the empty string. */
  function StripTags(s: string): (r: string)
    ensures |r| <= |s|
    ensures forall c :: c in r ==> c in s
    decreases |s|
  {
    if s == [] then []
    else match TagLength(s)
      case Some(n) => StripTags(s[n..])
      case None => [s[0]] + StripTags(s[1..])
  }

  /** Nothing the pattern matches is left after stripping. */
  lemma {:induction false} StripTagsIsTagFree(s: string)
    ensures TagFree(StripTags(s))
    decreases |s|
  {
    if s == [] {
    } else if TagLength(s).Some? {
      StripTagsIsTagFree(s[TagLength(s).value..]);
    } else {
      var rest := StripTags(s[1..]);
      var r := [s[0]] + rest;
      StripTagsIsTagFree(s[1..]);
      assert r == StripTags(s);
      forall i | 0 <= i < |r| ensures TagLength(r[i..]).None? {
        if i == 0 {
          if s[0] == '<' {
            match FindChar(s, '>', 1)
            case None =>
              assert forall k :: 1 <= k < |r| ==> r[k] != '>' by {
                forall k | 1 <= k < |r| ensures r[k] != '>' {
                  assert r[k] in rest;
                }
              }
            case Some(j) =>
              assert j == 1;
              assert TagLength(s[1..]).None?;
              assert r[1] == '>';
          }
        } else {
          assert r[i..] == rest[i - 1..];
        }
      }
    }
  }

  /** Text without tags is left as it is. */
  lemma {:induction false} StripTagsKeepsTagFree(s: string)
    requires TagFree(s)
    ensures StripTags(s) == s
    decreases |s|
  {
    if s != [] {
      assert s[0..] == s;
      assert TagFree(s[1..]) by {
        forall i | 0 <= i < |s[1..]| ensures TagLength(s[1..][i..]).None? {
          assert s[1..][i..] == s[i + 1..];
        }
      }
      StripTagsKeepsTagFree(s[1..]);
    }
  }

  /** Stripping twice is stripping once. */
  lemma StripTagsIdempotent(s: string)
    ensures StripTags(StripTags(s)) == StripTags(s)
  {
    StripTagsIsTagFree(s);
    StripTagsKeepsTagFree(StripTags(s));
  }
}
