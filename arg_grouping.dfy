/**
 * The command-line pass at the top of ng-stone.js: `process.argv` is walked
 * left to right; a dash-argument becomes the current label and gets a fresh
 * empty list, every later plain argument is pushed onto the current label's
 * list, and plain arguments seen before any label are dropped.
 */
module ArgGrouping {
  import opened Wrappers

  /** `arg[0] === "-"`; the empty argument has no first character and is plain. */
  predicate IsDash(arg: string)
  {
    |arg| > 0 && arg[0] == '-'
  }

  /** The two variables the pass updates: the `vals` object and `argLabel`. */
  datatype Grouping = Grouping(vals: map<string, seq<string>>, argLabel: Option<string>)

  /** Position of the last dash-argument of `args`, or -1 when there is none. */
  function LastDash(args: seq<string>): (k: int)
    ensures -1 <= k < |args|
    ensures k >= 0 ==> IsDash(args[k])
    ensures forall m :: k < m < |args| ==> !IsDash(args[m])
  {
    if args == [] then -1
    else if IsDash(args[|args| - 1]) then |args| - 1
    else LastDash(args[..|args| - 1])
  }

  /** First position at or after `j` holding a dash-argument, or `|args|`. */
  function NextDash(args: seq<string>, j: nat): (k: nat)
    requires j <= |args|
    ensures j <= k <= |args|
    ensures forall m :: j <= m < k ==> !IsDash(args[m])
    ensures k < |args| ==> IsDash(args[k])
    decreases |args| - j
  {
    if j == |args| || IsDash(args[j]) then j else NextDash(args, j + 1)
  }

  /** One iteration of the `process.argv.map` callback. */
  function Step(g: Grouping, arg: string): (r: Grouping)
    requires g.argLabel.Some? ==> g.argLabel.value in g.vals
    ensures r.argLabel.Some? ==> r.argLabel.value in r.vals
  {
    if IsDash(arg) then Grouping(g.vals[arg := []], Some(arg))
    else if g.argLabel.Some? then Grouping(g.vals[g.argLabel.value := g.vals[g.argLabel.value] + [arg]], g.argLabel)
    else g
  }

  /**
   * One step adds a key exactly for a dash-argument and touches no list but
   * the one under that argument or under the current label.
   */
  lemma StepFrame(g: Grouping, arg: string)
    requires g.argLabel.Some? ==> g.argLabel.value in g.vals
    ensures Step(g, arg).vals.Keys == g.vals.Keys + (if IsDash(arg) then {arg} else {})
    ensures forall key :: key in g.vals && key != arg && Some(key) != g.argLabel ==>
      Step(g, arg).vals[key] == g.vals[key]
  {
  }

  /**
   * The state after the pass over `args`, as a left fold of `Step`. The
   * label is the last dash-argument seen, and it always has a list.
   */
  function Grouped(args: seq<string>): (g: Grouping)
    ensures g.argLabel == (if LastDash(args) < 0 then None else Some(args[LastDash(args)]))
    ensures g.argLabel.Some? ==> g.argLabel.value in g.vals
  {
    if args == [] then Grouping(map[], None)
    else Step(Grouped(args[..|args| - 1]), args[|args| - 1])
  }

  /** The loop itself: `vals` and `argLabel` updated argument by argument. */
  method GroupArgs(argv: seq<string>) returns (vals: map<string, seq<string>>)
    ensures vals == Grouped(argv).vals
  {
    vals := map[];
    var argLabel: Option<string> := None;
    var i := 0;
    while i < |argv|
      invariant 0 <= i <= |argv|
      invariant Grouping(vals, argLabel) == Grouped(argv[..i])
    {
      var arg := argv[i];
      assert argv[..i + 1][..i] == argv[..i];
      if |arg| > 0 && arg[0] == '-' {
        argLabel := Some(arg);
        vals := vals[argLabel.value := []];
      } else if argLabel.Some? {
        vals := vals[argLabel.value := vals[argLabel.value] + [arg]];
      }
      i := i + 1;
    }
    assert argv[..i] == argv;
  }

  /** The labels are exactly the dash-arguments that occur. */
  lemma {:induction false} GroupedKeys(args: seq<string>, key: string)
    ensures key in Grouped(args).vals <==> key in args && IsDash(key)
  {
    if args != [] {
      var init := args[..|args| - 1];
      GroupedKeys(init, key);
      assert args == init + [args[|args| - 1]];
    }
  }

  /** Appending an argument moves the next dash only when none was found before. */
  lemma {:induction false} NextDashAppend(args: seq<string>, x: string, j: nat)
    requires j <= |args|
    ensures NextDash(args + [x], j) ==
      if NextDash(args, j) < |args| || IsDash(x) then NextDash(args, j) else |args| + 1
    decreases |args| - j
  {
    var s := args + [x];
    if j < |args| {
      assert s[j] == args[j];
      if !IsDash(args[j]) {
        NextDashAppend(args, x, j + 1);
      }
    } else {
      assert s[j] == x;
      if !IsDash(x) {
        assert NextDash(s, j + 1) == |s|;
      }
    }
  }

  /**
   * The list under a label holds the plain arguments that follow the label's
   * LAST occurrence, in order, up to the next dash-argument: a repeated label
   * discards what its earlier occurrences collected.
   */
  lemma {:induction false} GroupedValues(args: seq<string>, i: nat)
    requires i < |args| && IsDash(args[i])
    requires forall j :: i < j < |args| ==> args[j] != args[i]
    ensures args[i] in Grouped(args).vals
    ensures Grouped(args).vals[args[i]] == args[i + 1..NextDash(args, i + 1)]
  {
    var n := |args| - 1;
    var init, x := args[..n], args[n];
    assert args == init + [x];
    if i < n {
      assert init[i] == args[i];
      GroupedValues(init, i);
      ExtendGroup(init, x, i);
    } else {
      GroupedSnoc(init, x);
    }
  }

  /** One more argument keeps the list of an earlier label as `GroupedValues` states it. */
  lemma {:induction false} ExtendGroup(init: seq<string>, x: string, i: nat)
    requires i < |init| && IsDash(init[i]) && x != init[i]
    requires forall j :: i < j < |init| ==> init[j] != init[i]
    requires init[i] in Grouped(init).vals
    requires Grouped(init).vals[init[i]] == init[i + 1..NextDash(init, i + 1)]
    ensures init[i] in Grouped(init + [x]).vals
    ensures Grouped(init + [x]).vals[init[i]] == (init + [x])[i + 1..NextDash(init + [x], i + 1)]
  {
    var n := |init|;
    var args := init + [x];
    var key := init[i];
    var g := Grouped(init);
    GroupedSnoc(init, x);
    NextDashAppend(init, x, i + 1);
    var k := NextDash(init, i + 1);
    var last := LastDash(init);
    assert i <= last by {
      assert IsDash(init[i]);
    }
    if IsDash(x) {
      assert Grouped(args).vals[key] == g.vals[key];
      assert args[i + 1..k] == init[i + 1..k];
    } else if init[last] == key {
      assert last == i;
      assert k == n;
      assert Grouped(args).vals[key] == g.vals[key] + [x];
      assert args[i + 1..n + 1] == init[i + 1..n] + [x];
    } else {
      assert k <= last;
      assert Grouped(args).vals[key] == g.vals[key];
      assert args[i + 1..k] == init[i + 1..k];
    }
  }

  /** The pass over `init + [x]` is one more step after the pass over `init`. */
  lemma {:induction false} GroupedSnoc(init: seq<string>, x: string)
    ensures Grouped(init + [x]) == Step(Grouped(init), x)
  {
    assert (init + [x])[..|init|] == init;
  }

  /** A plain argument before every dash-argument is in no list. */
  lemma {:induction false} GroupedDropsLeading(args: seq<string>)
    requires forall j :: 0 <= j < |args| ==> !IsDash(args[j])
    ensures Grouped(args).vals == map[]
  {
    if args != [] {
      GroupedDropsLeading(args[..|args| - 1]);
    }
  }
}
