/**
 * The Python string operations the script uses, over `string` (= `seq<char>`):
 * substring containment (`sub in s`), as a search for the leftmost occurrence,
 * which splitting at a separator (`s.split(sep)`, with an explicit, non-empty
 * separator) also relies on, and `s.startswith(p)`. Joining (`sep.join(parts)`)
 * is modelled only to state the round trip of `split`.
 */
module PyStr {
  import opened Wrappers

  /** `sub` occurs in `s` starting at index `i`. */
  predicate OccursAt(s: string, sub: string, i: int)
  {
    0 <= i && i + |sub| <= |s| && s[i..i + |sub|] == sub
  }

  /** No occurrence of `sub` in `s` starts at an index in `[lo, hi)`. */
  ghost predicate NoneBetween(s: string, sub: string, lo: int, hi: int)
  {
    forall i :: lo <= i < hi ==> !OccursAt(s, sub, i)
  }

  /** Python's `s.find(sub, from)`: the leftmost occurrence at or after `from`. */
  function Find(s: string, sub: string, from: nat): (r: Option<nat>)
    ensures r.Some? ==> from <= r.value && OccursAt(s, sub, r.value)
    decreases |s| - from
  {
    if from + |sub| > |s| then None
    else if OccursAt(s, sub, from) then Some(from)
    else Find(s, sub, from + 1)
  }

  /** `Find` gives the leftmost occurrence at or after `from`, and `None` only when there is none. */
  lemma {:induction false} FindSpec(s: string, sub: string, from: nat)
    ensures var r := Find(s, sub, from);
      && (r.Some? ==> NoneBetween(s, sub, from, r.value))
      && (r.None? ==> NoneBetween(s, sub, from, |s| + 1))
    decreases |s| - from
  {
    if from + |sub| <= |s| && !OccursAt(s, sub, from) {
      FindSpec(s, sub, from + 1);
    }
  }

  /** Python's `sub in s` for strings: substring containment. */
  predicate Contains(s: string, sub: string)
    ensures Contains(s, sub) ==> |sub| <= |s|
    ensures |sub| == 0 ==> Contains(s, sub)
  {
    Find(s, sub, 0).Some?
  }

  /** `sub in s` holds exactly when `sub` occurs somewhere in `s`. */
  lemma ContainsIff(s: string, sub: string)
    ensures Contains(s, sub) <==> exists i :: OccursAt(s, sub, i)
  {
    FindSpec(s, sub, 0);
  }

  /** Python's `s.split(sep)` for a non-empty `sep`: cut at every occurrence, left to right. */
  function Split(s: string, sep: string): (parts: seq<string>)
    requires |sep| > 0
    ensures |parts| >= 1
    ensures |parts| >= 2 <==> Contains(s, sep)
    decreases |s|
  {
    match Find(s, sep, 0)
    case None => [s]
    case Some(i) => [s[..i]] + Split(s[i + |sep|..], sep)
  }

  /** Python's `sep.join(parts)`. */
  function Join(parts: seq<string>, sep: string): string
    decreases |parts|
  {
    if |parts| == 0 then ""
    else if |parts| == 1 then parts[0]
    else parts[0] + sep + Join(parts[1..], sep)
  }

  /** Python's `s.startswith(p)`. */
  predicate StartsWith(s: string, p: string)
  {
    |p| <= |s| && s[..|p|] == p
  }

  /** `s.startswith(p)` holds exactly when `s` is `p` followed by some string. */
  lemma StartsWithIff(s: string, p: string)
    ensures StartsWith(s, p) <==> exists t :: s == p + t
  {
    if StartsWith(s, p) {
      assert s == p + s[|p|..];
    }
  }

  /** An occurrence inside a prefix of `s` is an occurrence in `s`. */
  lemma OccursInPrefix(s: string, sub: string, n: nat, i: int)
    requires n <= |s| && OccursAt(s[..n], sub, i)
    ensures OccursAt(s, sub, i)
  {
    assert s[..n][i..i + |sub|] == s[i..i + |sub|];
  }

  /** An occurrence ending within the first `n` characters is one in `s[..n]`. */
  lemma OccursRestrictPrefix(s: string, sub: string, n: nat, i: int)
    requires n <= |s| && OccursAt(s, sub, i) && i + |sub| <= n
    ensures OccursAt(s[..n], sub, i)
  {
    assert s[..n][i..i + |sub|] == s[i..i + |sub|];
  }

  /** An occurrence starting at or after `n` is one in `s[n..]`, shifted by `n`. */
  lemma OccursRestrictSuffix(s: string, sub: string, n: nat, i: int)
    requires n <= |s| && OccursAt(s, sub, i) && n <= i
    ensures OccursAt(s[n..], sub, i - n)
  {
    assert s[n..][i - n..i - n + |sub|] == s[i..i + |sub|];
  }

  /** The displayed separator of `a + sep + b` is an occurrence. */
  lemma OccursDisplayed(a: string, sep: string, b: string)
    ensures OccursAt(a + sep + b, sep, |a|)
  {
    assert (a + sep + b)[|a|..|a| + |sep|] == sep;
  }

  /** Splitting and joining with the same separator gives back the string. */
  lemma {:induction false} JoinSplit(s: string, sep: string)
    requires |sep| > 0
    ensures Join(Split(s, sep), sep) == s
    decreases |s|
  {
    match Find(s, sep, 0)
    case None =>
    case Some(i) =>
      var rest := s[i + |sep|..];
      JoinSplit(rest, sep);
      JoinCons(s[..i], Split(rest, sep), sep, rest);
      assert s == s[..i] + s[i..i + |sep|] + rest;
  }

  /** Joining a part in front of parts that join to `rest` gives `a + sep + rest`. */
  lemma JoinCons(a: string, parts: seq<string>, sep: string, rest: string)
    requires |parts| >= 1 && Join(parts, sep) == rest
    ensures Join([a] + parts, sep) == a + sep + rest
  {
    assert ([a] + parts)[1..] == parts;
  }

  /** No part produced by `Split` contains the separator. */
  lemma {:induction false} SplitPartsFree(s: string, sep: string)
    requires |sep| > 0
    ensures forall k :: 0 <= k < |Split(s, sep)| ==> !Contains(Split(s, sep)[k], sep)
    decreases |s|
  {
    match Find(s, sep, 0)
    case None =>
    case Some(i) =>
      FindSpec(s, sep, 0);
      var rest := s[i + |sep|..];
      SplitPartsFree(rest, sep);
      forall j | OccursAt(s[..i], sep, j) ensures false {
        OccursInPrefix(s, sep, i, j);
      }
      ContainsIff(s[..i], sep);
      assert Split(s, sep) == [s[..i]] + Split(rest, sep);
  }

  /** The first part is the longest separator-free prefix: the whole string, or followed by `sep`. */
  lemma SplitHead(s: string, sep: string)
    requires |sep| > 0
    ensures var head := Split(s, sep)[0];
      && StartsWith(s, head)
      && !Contains(head, sep)
      && (head == s || OccursAt(s, sep, |head|))
  {
    FindSpec(s, sep, 0);
    SplitPartsFree(s, sep);
  }

  /** The second part is the head of the split of what follows the first separator. */
  lemma SplitSecond(s: string, sep: string)
    requires |sep| > 0 && Contains(s, sep)
    ensures |Split(s, sep)[0]| + |sep| <= |s|
    ensures Split(s, sep)[1] == Split(s[|Split(s, sep)[0]| + |sep|..], sep)[0]
  {
    var i := Find(s, sep, 0).value;
    var rest := s[i + |sep|..];
    var parts := Split(s, sep);
    assert parts == [s[..i]] + Split(rest, sep);
    assert |parts[0]| == i;
    assert s[|parts[0]| + |sep|..] == rest;
    assert parts[1] == Split(rest, sep)[0];
  }

  /** A character absent from `s` is absent from every prefix of `s`. */
  lemma StartsWithAbsent(s: string, p: string, c: char)
    requires StartsWith(s, p) && c !in s
    ensures c !in p
  {
  }

  /** `t` is the tail of `s` after the last `sep`: a suffix that is all of `s` or preceded by `sep`. */
  ghost predicate TailAfterSep(s: string, sep: string, t: string)
  {
    var p := |s| - |t|;
    && 0 <= p && s[p..] == t
    && (p == 0 || (|sep| <= p && s[p - |sep|..p] == sep))
  }

  /** The last part is a suffix: the whole string, or preceded by `sep`. */
  lemma SplitLast(s: string, sep: string, parts: seq<string>)
    requires |sep| > 0 && parts == Split(s, sep)
    ensures TailAfterSep(s, sep, parts[|parts| - 1])
  {
    JoinSplit(s, sep);
    JoinTail(parts, sep, s);
  }

  /** The last of the joined parts is the tail after the last separator. */
  lemma JoinTail(parts: seq<string>, sep: string, s: string)
    requires |parts| >= 1 && Join(parts, sep) == s
    ensures TailAfterSep(s, sep, parts[|parts| - 1])
  {
    if |parts| == 1 {
      assert s[0..] == parts[0];
    } else {
      JoinLast(parts, sep);
      ConcatTail(Join(parts[..|parts| - 1], sep), sep, parts[|parts| - 1]);
    }
  }

  /** In `a + sep + b`, `b` is the tail after a separator. */
  lemma ConcatTail(a: string, sep: string, b: string)
    ensures TailAfterSep(a + sep + b, sep, b)
  {
    var s := a + sep + b;
    assert s[|a| + |sep|..] == b;
    assert s[|a|..|a| + |sep|] == sep;
  }

  /** Joining at least two parts ends with the separator and the last part. */
  lemma {:induction false} JoinLast(parts: seq<string>, sep: string)
    requires |parts| >= 2
    ensures Join(parts, sep) == Join(parts[..|parts| - 1], sep) + sep + parts[|parts| - 1]
    decreases |parts|
  {
    var rest := parts[1..];
    if |rest| >= 2 {
      JoinLast(rest, sep);
      assert parts[..|parts| - 1] == [parts[0]] + rest[..|rest| - 1];
      assert parts[..|parts| - 1][1..] == rest[..|rest| - 1];
    }
  }

  /** If the first occurrence of `sep` in `a + sep + b` is the displayed one, the split peels off `a`. */
  lemma SplitAt(a: string, sep: string, b: string)
    requires |sep| > 0
    requires NoneBetween(a + sep + b, sep, 0, |a|)
    ensures Split(a + sep + b, sep) == [a] + Split(b, sep)
  {
    var s := a + sep + b;
    assert s[|a|..|a| + |sep|] == sep;
    assert OccursAt(s, sep, |a|);
    FindSpec(s, sep, 0);
    match Find(s, sep, 0)
    case None =>
      assert false;
    case Some(i) =>
      assert i == |a|;
      assert s[..i] == a;
      assert s[i + |sep|..] == b;
  }

  /** A one-character separator absent from `a` cannot occur before the displayed one. */
  lemma NoStraddleChar(a: string, c: char, b: string)
    requires c !in a
    ensures NoneBetween(a + [c] + b, [c], 0, |a|)
  {
    forall i | 0 <= i < |a| ensures !OccursAt(a + [c] + b, [c], i) {
      assert (a + [c] + b)[i] == a[i];
    }
  }

  /** A string lacking the first character of `sub` does not contain `sub`. */
  lemma FirstCharAbsent(s: string, sub: string)
    requires |sub| > 0 && sub[0] !in s
    ensures !Contains(s, sub)
  {
    ContainsIff(s, sub);
  }

  /** Containment of a one-character string is membership of that character. */
  lemma ContainsChar(s: string, c: char)
    ensures Contains(s, [c]) <==> c in s
  {
    ContainsIff(s, [c]);
    if c in s {
      var i :| 0 <= i < |s| && s[i] == c;
      assert s[i..i + 1] == [c];
      assert OccursAt(s, [c], i);
    }
    if Contains(s, [c]) {
      var i :| OccursAt(s, [c], i);
      assert s[i] == s[i..i + 1][0];
    }
  }
}
