/**
 * The name-case helpers of ng-stone.js: `detectCase`, `toPascalCase`,
 * `toFormalCase` and the path name `val.split("-").join("")`.
 *
 * Case mapping is ASCII only (see `Text.Upper`), so it never changes a
 * length.
 */
module CaseNames {
  import opened Wrappers
  import opened Text

  /** The record of flags that `detectCase` returns. */
  datatype Cases = Cases(snake: bool, kebab: bool, camel: bool, pascal: bool)

  /**
   * What the four flags mean, stated per flag: `pascal` when the first
   * character is its own upper-case form; otherwise `camel` when there is no
   * separator at all, `kebab` when there is no underscore and either a hyphen
   * or no capital, `snake` when there is an underscore or neither a hyphen nor
   * a capital.
   */
  function CaseFlags(val: string): (c: Cases)
    requires |val| > 0
    ensures c.pascal <==> !('a' <= val[0] <= 'z')
    ensures c.pascal ==> !c.snake && !c.kebab && !c.camel
    ensures c.kebab <==> 'a' <= val[0] <= 'z' && '_' !in val && ('-' in val || !HasUpper(val))
    ensures (c.snake && c.kebab && c.camel) <==> ('a' <= val[0] <= 'z' && '_' !in val && '-' !in val && !HasUpper(val))
  {
    var pascal := val[0] == Upper(val[0]);
    Cases(snake := !pascal && ('_' in val || ('-' !in val && !HasUpper(val))),
          kebab := !pascal && '_' !in val && ('-' in val || !HasUpper(val)),
          camel := !pascal && '_' !in val && '-' !in val,
          pascal := pascal)
  }

  /**
   * `detectCase`: starts from four false flags and sets them through the
   * source's if-chain. `val` must be non-empty: `val[0].toUpperCase()` throws
   * on the empty string, and `main` only calls it with a non-empty name.
   */
  method DetectCase(val: string) returns (cases: Cases)
    requires |val| > 0
    ensures cases == CaseFlags(val)
  {
    cases := Cases(snake := false, kebab := false, camel := false, pascal := false);
    if val[0] == Upper(val[0]) {
      cases := cases.(pascal := true);
    } else {
      LowerStrChanges(val);
      if IndexOf(val, '_') != |val| {
        cases := cases.(snake := true);
      } else if IndexOf(val, '-') != |val| {
        cases := cases.(kebab := true);
      } else if val != LowerStr(val) {
        cases := cases.(camel := true);
      } else {
        cases := cases.(snake := true, kebab := true, camel := true);
      }
    }
  }

  /** `w[0].toUpperCase() + w.substring(1)`; `None` is the TypeError on `""`. */
  function Capitalize(w: string): Option<string>
  {
    if w == "" then None else Some([Upper(w[0])] + w[1..])
  }

  /** The `.map` over the segments: it throws as soon as one segment is empty. */
  function CapitalizeAll(ws: seq<string>): (r: Option<seq<string>>)
    ensures r.Some? <==> forall k :: 0 <= k < |ws| ==> ws[k] != ""
    ensures r.Some? ==> |r.value| == |ws|
  {
    if ws == [] then Some([])
    else match (Capitalize(ws[0]), CapitalizeAll(ws[1..]))
      case (Some(h), Some(t)) => Some([h] + t)
      case _ => None
  }

  /** `toPascalCase`: split on `-`, capitalise each segment, join with `""`. */
  function ToPascalCase(val: string): Option<string>
  {
    match CapitalizeAll(Split(val, '-'))
    case None => None
    case Some(ws) => Some(Join(ws, ""))
  }

  /** `toFormalCase`: split on `-`, capitalise each segment, join with `" "`. */
  function ToFormalCase(val: string): Option<string>
  {
    match CapitalizeAll(Split(val, '-'))
    case None => None
    case Some(ws) => Some(Join(ws, " "))
  }

  /** The route path of a module: `val.split("-").join("")`. */
  function PathName(val: string): string
  {
    Join(Split(val, '-'), "")
  }

  /** A name with no empty hyphen-separated segment. */
  predicate WellHyphenated(val: string)
  {
    && |val| > 0
    && val[0] != '-'
    && val[|val| - 1] != '-'
    && forall i :: 0 <= i < |val| - 1 && val[i] == '-' ==> val[i + 1] != '-'
  }

  /**
   * Reference definition: the first character of every hyphen-separated
   * segment upper-cased, every other character (hyphens included) unchanged.
   */
  function Capitalized(val: string): (r: string)
    ensures |r| == |val|
  {
    seq(|val|, i requires 0 <= i < |val| => if i == 0 || val[i - 1] == '-' then Upper(val[i]) else val[i])
  }

  lemma UpperKeepsHyphens(ch: char)
    ensures Upper(ch) == '-' <==> ch == '-'
  {
  }

  /** Capitalising moves no hyphen: they sit where they sat in `val`. */
  lemma CapitalizedHyphens(val: string)
    ensures forall i :: 0 <= i < |val| ==> (Capitalized(val)[i] == '-' <==> val[i] == '-')
    ensures Count(Capitalized(val), '-') == Count(val, '-')
  {
    forall i | 0 <= i < |val|
      ensures Capitalized(val)[i] == '-' <==> val[i] == '-'
    {
      UpperKeepsHyphens(val[i]);
    }
    CountSamePositions(Capitalized(val), val, '-');
  }

  /** A single segment only has its first character capitalised. */
  lemma CapitalizedSegment(a: string)
    requires |a| > 0 && '-' !in a
    ensures Capitalized(a) == [Upper(a[0])] + a[1..]
  {
  }

  /** Capitalising works segment by segment. */
  lemma CapitalizedConcat(a: string, b: string)
    requires |a| > 0 && '-' !in a
    ensures Capitalized(a + ['-'] + b) == Capitalized(a) + ['-'] + Capitalized(b)
  {
    var s := a + ['-'] + b;
    var lhs, rhs := Capitalized(s), Capitalized(a) + ['-'] + Capitalized(b);
    forall i | 0 <= i < |s|
      ensures lhs[i] == rhs[i]
    {
      if i > |a| + 1 {
        assert s[i - 1] == b[i - |a| - 2];
      }
    }
  }

  /** The segments of `val` are all non-empty exactly when `val` is well hyphenated. */
  lemma SegmentsNonEmpty(val: string)
    ensures NoEmptySegment(Split(val, '-')) <==> WellHyphenated(val)
  {
    if WellHyphenated(val) {
      WellHyphenatedSegments(val);
    }
    if NoEmptySegment(Split(val, '-')) {
      SegmentsWellHyphenated(val);
    }
  }

  /** No piece of `parts` is the empty string. */
  predicate NoEmptySegment(parts: seq<string>)
  {
    forall k :: 0 <= k < |parts| ==> parts[k] != ""
  }

  /** The tail after the first hyphen of a well-hyphenated name is well hyphenated. */
  lemma WellHyphenatedTail(val: string, i: nat)
    requires WellHyphenated(val) && i < |val| && val[i] == '-'
    ensures i > 0 && WellHyphenated(val[i + 1..])
  {
    var b := val[i + 1..];
    assert i < |val| - 1;
    assert b[0] == val[i + 1];
    forall j | 0 <= j < |b| - 1 && b[j] == '-'
      ensures b[j + 1] != '-'
    {
      assert val[i + 1 + j] == b[j];
    }
  }

  lemma {:induction false} WellHyphenatedSegments(val: string)
    requires WellHyphenated(val)
    ensures NoEmptySegment(Split(val, '-'))
    decreases |val|
  {
    if '-' in val {
      var a, b := SplitAtFirst(val, '-');
      assert val[|a|] == '-';
      WellHyphenatedTail(val, |a|);
      WellHyphenatedSegments(b);
      assert a != "" by {
        assert val[0] != '-';
      }
      NoEmptyCons(a, Split(b, '-'));
    } else {
      SplitNone(val, '-');
    }
  }

  /** A list with a non-empty head has no empty piece exactly when its tail has none. */
  lemma NoEmptyCons(a: string, t: seq<string>)
    ensures NoEmptySegment([a] + t) <==> a != "" && NoEmptySegment(t)
  {
    var p := [a] + t;
    assert p[0] == a;
    assert forall k :: 0 <= k < |t| ==> p[k + 1] == t[k];
  }

  lemma {:induction false} SegmentsWellHyphenated(val: string)
    requires NoEmptySegment(Split(val, '-'))
    ensures WellHyphenated(val)
    decreases |val|
  {
    if '-' in val {
      var a, b := SplitAtFirst(val, '-');
      NoEmptyCons(a, Split(b, '-'));
      SegmentsWellHyphenated(b);
      JoinHyphenated(a, b);
    } else {
      SplitNone(val, '-');
      assert [val][0] == val;
    }
  }

  /** A non-empty hyphen-free head, a hyphen and a well-hyphenated tail. */
  lemma JoinHyphenated(a: string, b: string)
    requires a != "" && '-' !in a && WellHyphenated(b)
    ensures WellHyphenated(a + ['-'] + b)
  {
    var val := a + ['-'] + b;
    var i := |a|;
    assert val[0] == a[0] && val[|val| - 1] == b[|b| - 1];
    assert forall j :: 0 <= j < i ==> val[j] == a[j];
    forall j | 0 <= j < |val| - 1 && val[j] == '-'
      ensures val[j + 1] != '-'
    {
      if j > i {
        assert val[j] == b[j - i - 1] && val[j + 1] == b[j - i];
      } else if j == i {
        assert val[j + 1] == b[0];
      }
    }
  }

  /** On a well-hyphenated name the `.map` succeeds and yields the segments of `Capitalized(val)`. */
  lemma {:induction false} CapitalizeSegments(val: string)
    requires WellHyphenated(val)
    ensures CapitalizeAll(Split(val, '-')) == Some(Split(Capitalized(val), '-'))
    decreases |val|
  {
    if '-' in val {
      var a, b := SplitAtFirst(val, '-');
      assert val[|a|] == '-';
      WellHyphenatedTail(val, |a|);
      assert a != "" by {
        assert val[0] != '-';
      }
      CapitalizeSegments(b);
      CapitalizeHead(a, Split(b, '-'));
      CapitalizedSplit(a, b);
    } else {
      CapitalizeOneSegment(val);
    }
  }

  /** The `.map` over a non-empty hyphen-free head followed by more segments. */
  lemma CapitalizeHead(a: string, t: seq<string>)
    requires a != "" && '-' !in a
    ensures CapitalizeAll([a] + t) ==
      match CapitalizeAll(t) case None => None case Some(ct) => Some([Capitalized(a)] + ct)
  {
    assert ([a] + t)[1..] == t;
    CapitalizedSegment(a);
  }

  lemma {:induction false} CapitalizeOneSegment(val: string)
    requires |val| > 0 && '-' !in val
    ensures CapitalizeAll(Split(val, '-')) == Some(Split(Capitalized(val), '-'))
  {
    var cv := Capitalized(val);
    SplitNone(val, '-');
    CapitalizeHead(val, []);
    assert [val] + [] == [val];
    assert [cv] + [] == [cv];
    CapitalizedHyphens(val);
    assert '-' !in cv;
    SplitNone(cv, '-');
  }

  /** Splitting the capitalised name cuts at the first hyphen of the name. */
  lemma CapitalizedSplit(a: string, b: string)
    requires |a| > 0 && '-' !in a
    ensures Split(Capitalized(a + ['-'] + b), '-') == [Capitalized(a)] + Split(Capitalized(b), '-')
  {
    CapitalizedConcat(a, b);
    CapitalizedHyphens(a);
    assert '-' !in Capitalized(a);
    SplitCons(Capitalized(a), Capitalized(b), '-');
  }

  /**
   * `toPascalCase` succeeds exactly on well-hyphenated names; its result is
   * the path name of the capitalised name: hyphen-free, one character shorter
   * per hyphen, segment heads upper-cased and all else unchanged.
   */
  lemma PascalCaseSpec(val: string)
    ensures ToPascalCase(val).Some? <==> WellHyphenated(val)
    ensures ToPascalCase(val).Some? ==>
      && ToPascalCase(val).value == PathName(Capitalized(val))
      && '-' !in ToPascalCase(val).value
      && |ToPascalCase(val).value| == |val| - Count(val, '-')
  {
    SegmentsNonEmpty(val);
    if WellHyphenated(val) {
      CapitalizeSegments(val);
      PathNameSpec(Capitalized(val));
      CapitalizedHyphens(val);
    }
  }

  /**
   * `toFormalCase` succeeds exactly on well-hyphenated names; it keeps the
   * length, turns every hyphen into one space and upper-cases only the first
   * character of each segment.
   */
  lemma FormalCaseSpec(val: string)
    ensures ToFormalCase(val).Some? <==> WellHyphenated(val)
    ensures ToFormalCase(val).Some? ==>
      && |ToFormalCase(val).value| == |val|
      && forall i :: 0 <= i < |val| ==>
           ToFormalCase(val).value[i] == (if val[i] == '-' then ' ' else Capitalized(val)[i])
  {
    SegmentsNonEmpty(val);
    if WellHyphenated(val) {
      CapitalizeSegments(val);
      JoinSplitReplace(Capitalized(val), '-', " ");
      ReplaceAllByChar(Capitalized(val), '-', ' ');
      CapitalizedHyphens(val);
    }
  }

  /** The path name is the name with every hyphen deleted. */
  lemma PathNameSpec(val: string)
    ensures PathName(val) == ReplaceAll(val, '-', "")
    ensures '-' !in PathName(val)
    ensures |PathName(val)| == |val| - Count(val, '-')
  {
    JoinSplitReplace(val, '-', "");
  }
}
