/**
 * JavaScript string primitives the generator relies on: `split` on one
 * character, `join`, `includes`, ASCII `toUpperCase` / `toLowerCase`,
 * together with the laws that relate them.
 */
module Text {

  /** `parts.join(sep)`. */
  function Join(parts: seq<string>, sep: string): string
  {
    if |parts| == 0 then ""
    else if |parts| == 1 then parts[0]
    else parts[0] + sep + Join(parts[1..], sep)
  }

  /** Joining two non-empty lists puts exactly one separator between them. */
  lemma {:induction false} JoinAppend(a: seq<string>, b: seq<string>, sep: string)
    requires |a| > 0 && |b| > 0
    ensures Join(a + b, sep) == Join(a, sep) + sep + Join(b, sep)
  {
    if |a| == 1 {
      assert (a + b)[1..] == b;
    } else {
      assert (a + b)[1..] == a[1..] + b;
      JoinAppend(a[1..], b, sep);
    }
  }

  /** Index of the first `c` in `s`, or `|s|` when there is none. */
  function IndexOf(s: string, c: char): (i: nat)
    ensures i <= |s|
    ensures i < |s| ==> s[i] == c
    ensures forall j :: 0 <= j < i ==> s[j] != c
  {
    if |s| == 0 then 0
    else if s[0] == c then 0
    else 1 + IndexOf(s[1..], c)
  }

  /** `s.split(c)`: the maximal `c`-free pieces between occurrences of `c`. */
  function Split(s: string, c: char): (parts: seq<string>)
    ensures |parts| >= 1
    ensures forall k :: 0 <= k < |parts| ==> c !in parts[k]
    decreases |s|
  {
    var i := IndexOf(s, c);
    if i == |s| then [s] else [s[..i]] + Split(s[i + 1..], c)
  }

  /** Joining a head in front of a non-empty list puts one separator after the head. */
  lemma JoinCons(a: string, t: seq<string>, sep: string)
    requires |t| >= 1
    ensures Join([a] + t, sep) == a + sep + Join(t, sep)
  {
    assert ([a] + t)[1..] == t;
  }

  /** A string without `c` is a single piece. */
  lemma SplitNone(s: string, c: char)
    requires c !in s
    ensures Split(s, c) == [s]
  {
    assert IndexOf(s, c) == |s|;
  }

  /** The first piece of a string is everything before its first `c`. */
  lemma SplitCons(a: string, b: string, c: char)
    requires c !in a
    ensures Split(a + [c] + b, c) == [a] + Split(b, c)
  {
    var s := a + [c] + b;
    assert forall j :: 0 <= j < |a| ==> s[j] == a[j];
    assert s[|a|] == c;
    var i := IndexOf(s, c);
    assert i == |a|;
    assert s[..i] == a;
    assert s[i + 1..] == b;
  }

  /** A string holding `c` is its first piece, `c`, and the rest. */
  lemma SplitAtFirst(s: string, c: char) returns (a: string, b: string)
    requires c in s
    ensures s == a + [c] + b && c !in a
    ensures Split(s, c) == [a] + Split(b, c)
  {
    var i := IndexOf(s, c);
    a, b := s[..i], s[i + 1..];
    assert s == a + [c] + b;
  }

  /** Splitting and re-joining with the same character gives back the string. */
  lemma {:induction false} JoinSplit(s: string, c: char)
    ensures Join(Split(s, c), [c]) == s
    decreases |s|
  {
    if c in s {
      var a, b := SplitAtFirst(s, c);
      JoinSplit(b, c);
      JoinCons(a, Split(b, c), [c]);
    } else {
      SplitNone(s, c);
    }
  }

  /** Joining `c`-free pieces with `c` and splitting again gives back the pieces. */
  lemma {:induction false} SplitJoin(parts: seq<string>, c: char)
    requires |parts| >= 1
    requires forall k :: 0 <= k < |parts| ==> c !in parts[k]
    ensures Split(Join(parts, [c]), c) == parts
  {
    if |parts| == 1 {
      SplitNone(parts[0], c);
    } else {
      var rest := parts[1..];
      assert parts == [parts[0]] + rest;
      JoinCons(parts[0], rest, [c]);
      SplitCons(parts[0], Join(rest, [c]), c);
      SplitJoin(rest, c);
    }
  }

  /** Number of occurrences of `x` in `s`. */
  function Count<T(==)>(s: seq<T>, x: T): (n: nat)
    ensures n <= |s|
    ensures n == 0 <==> x !in s
  {
    if s == [] then 0 else (if s[0] == x then 1 else 0) + Count(s[1..], x)
  }

  /** Counting distributes over concatenation. */
  lemma {:induction false} CountAppend<T>(a: seq<T>, b: seq<T>, x: T)
    ensures Count(a + b, x) == Count(a, x) + Count(b, x)
  {
    if a == [] {
      assert a + b == b;
    } else {
      assert (a + b)[1..] == a[1..] + b;
      CountAppend(a[1..], b, x);
    }
  }

  /** Occurrence counts agree on sequences with `x` at the same positions. */
  lemma {:induction false} CountSamePositions<T>(a: seq<T>, b: seq<T>, x: T)
    requires |a| == |b|
    requires forall i :: 0 <= i < |a| ==> (a[i] == x <==> b[i] == x)
    ensures Count(a, x) == Count(b, x)
  {
    if a != [] {
      CountSamePositions(a[1..], b[1..], x);
    }
  }

  /**
   * Every `c` in `s` replaced by `sep`. When `c` does not occur in `sep`, the
   * result is `c`-free; a one-character `sep` keeps every other character in
   * place.
   */
  function ReplaceAll(s: string, c: char, sep: string): (r: string)
    ensures |sep| == 0 ==> |r| == |s| - Count(s, c)
    ensures c !in sep ==> c !in r
  {
    if s == [] then []
    else (if s[0] == c then sep else [s[0]]) + ReplaceAll(s[1..], c, sep)
  }

  /** Replacing by a single character keeps every other character where it was. */
  lemma {:induction false} ReplaceAllByChar(s: string, c: char, d: char)
    ensures |ReplaceAll(s, c, [d])| == |s|
    ensures forall i :: 0 <= i < |s| ==> ReplaceAll(s, c, [d])[i] == (if s[i] == c then d else s[i])
  {
    if s != [] {
      ReplaceAllByChar(s[1..], c, d);
      var r := ReplaceAll(s, c, [d]);
      assert r == [if s[0] == c then d else s[0]] + ReplaceAll(s[1..], c, [d]);
      forall i | 1 <= i < |s|
        ensures r[i] == (if s[i] == c then d else s[i])
      {
        assert s[1..][i - 1] == s[i];
      }
    }
  }

  lemma {:induction false} ReplaceAllAppend(a: string, b: string, c: char, sep: string)
    ensures ReplaceAll(a + b, c, sep) == ReplaceAll(a, c, sep) + ReplaceAll(b, c, sep)
  {
    if a != [] {
      assert (a + b)[1..] == a[1..] + b;
      ReplaceAllAppend(a[1..], b, c, sep);
    } else {
      assert a + b == b;
    }
  }

  lemma {:induction false} ReplaceAllAbsent(s: string, c: char, sep: string)
    requires c !in s
    ensures ReplaceAll(s, c, sep) == s
  {
    if s != [] {
      ReplaceAllAbsent(s[1..], c, sep);
    }
  }

  /** `s.split(c).join(sep)` replaces every `c` by `sep`. */
  lemma {:induction false} JoinSplitReplace(s: string, c: char, sep: string)
    ensures Join(Split(s, c), sep) == ReplaceAll(s, c, sep)
    decreases |s|
  {
    if c in s {
      var a, b := SplitAtFirst(s, c);
      JoinSplitReplace(b, c, sep);
      JoinCons(a, Split(b, c), sep);
      ReplaceAllFirst(a, b, c, sep);
    } else {
      SplitNone(s, c);
      ReplaceAllAbsent(s, c, sep);
    }
  }

  /** Replacing in `a + [c] + b` with `c` absent from `a`. */
  lemma ReplaceAllFirst(a: string, b: string, c: char, sep: string)
    requires c !in a
    ensures ReplaceAll(a + [c] + b, c, sep) == a + sep + ReplaceAll(b, c, sep)
  {
    assert a + [c] + b == a + ([c] + b);
    ReplaceAllAppend(a, [c] + b, c, sep);
    ReplaceAllCons(c, b, c, sep);
    ReplaceAllAbsent(a, c, sep);
  }

  lemma ReplaceAllCons(x: char, b: string, c: char, sep: string)
    ensures ReplaceAll([x] + b, c, sep) == (if x == c then sep else [x]) + ReplaceAll(b, c, sep)
  {
    assert ([x] + b)[1..] == b;
  }

  /** ASCII `toUpperCase` of one UTF-16 unit; other characters are unchanged. */
  function Upper(ch: char): (u: char)
    ensures (u == ch) <==> !('a' <= ch <= 'z')
    ensures 'a' <= ch <= 'z' ==> 'A' <= u <= 'Z'
  {
    if 'a' <= ch <= 'z' then (ch as int - 32) as char else ch
  }

  /** ASCII `toLowerCase` of one UTF-16 unit; other characters are unchanged. */
  function Lower(ch: char): (l: char)
    ensures (l == ch) <==> !('A' <= ch <= 'Z')
    ensures 'A' <= ch <= 'Z' ==> 'a' <= l <= 'z'
  {
    if 'A' <= ch <= 'Z' then (ch as int + 32) as char else ch
  }

  /** `s.toLowerCase()`. */
  function LowerStr(s: string): (r: string)
    ensures |r| == |s|
  {
    seq(|s|, i requires 0 <= i < |s| => Lower(s[i]))
  }

  /** True when `s` holds an upper-case ASCII letter. */
  predicate HasUpper(s: string)
  {
    exists i :: 0 <= i < |s| && 'A' <= s[i] <= 'Z'
  }

  /** `s !== s.toLowerCase()` holds exactly when `s` has an upper-case letter. */
  lemma LowerStrChanges(s: string)
    ensures LowerStr(s) != s <==> HasUpper(s)
  {
    if HasUpper(s) {
      var i :| 0 <= i < |s| && 'A' <= s[i] <= 'Z';
      assert LowerStr(s)[i] != s[i];
    } else {
      assert forall i :: 0 <= i < |s| ==> LowerStr(s)[i] == s[i];
    }
  }

  /** `sub` is a prefix of `s`. */
  predicate StartsWith(s: string, sub: string)
  {
    |sub| <= |s| && s[..|sub|] == sub
  }

  /** `s.includes(sub)`: `sub` occurs at some position of `s`. */
  predicate Contains(s: string, sub: string)
    decreases |s|
  {
    StartsWith(s, sub) || (|s| > 0 && Contains(s[1..], sub))
  }
}
