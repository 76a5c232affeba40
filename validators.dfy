/**
 * `generateValidators` of ng-stone.js: one line of Angular reactive-form
 * code per field. A field whose type is exactly `string`, `number` or `Date`
 * becomes a control with an ordered list of validator tokens; any other type
 * becomes a nested `this.fb.group(...)` over the fields of that type,
 * rendered recursively in declaration order.
 */
module Validators {
  import opened Text

  /**
   * A property as the type-script parser reports it. `members` holds the
   * properties the parser yields for `interface X <typeName>`; they are only
   * looked at when `typeName` is not one of the three scalar spellings.
   */
  datatype Field = Field(name: string, typeName: string, isOptional: bool, members: seq<Field>)

  /** The regular expression `^(string|number|Date)$`. */
  predicate IsScalar(typeName: string)
  {
    typeName == "string" || typeName == "number" || typeName == "Date"
  }

  const Required := "Validators.required"
  const Email := "Validators.email"
  const NumberCheck := "CustomValidators.number()"
  const DateCheck := "CustomValidators.date()"

  /** Where a token sits in the pushed order: required, then email, then the kind check. */
  function TokenRank(token: string): nat
  {
    if token == Required then 0 else if token == Email then 1 else 2
  }

  /** The validator tokens of a scalar field, pushed in the source's order. */
  function LeafTokens(f: Field): seq<string>
  {
    (if f.isOptional then [] else [Required])
    + (if Contains(LowerStr(f.name), "email") then [Email] else [])
    + (if f.typeName == "number" then [NumberCheck] else if f.typeName == "Date" then [DateCheck] else [])
  }

  /**
   * `Validators.required` once exactly when the field is not optional,
   * `Validators.email` exactly when the lower-cased name contains "email", a
   * number check exactly for `number`, a date check exactly for `Date`,
   * nothing else, always in that order.
   */
  lemma LeafTokensSpec(f: Field)
    ensures Count(LeafTokens(f), Required) == (if f.isOptional then 0 else 1)
    ensures Email in LeafTokens(f) <==> Contains(LowerStr(f.name), "email")
    ensures NumberCheck in LeafTokens(f) <==> f.typeName == "number"
    ensures DateCheck in LeafTokens(f) <==> f.typeName == "Date"
    ensures forall k :: 0 <= k < |LeafTokens(f)| ==> IsToken(LeafTokens(f)[k])
    ensures forall j, k :: 0 <= j < k < |LeafTokens(f)| ==> TokenRank(LeafTokens(f)[j]) < TokenRank(LeafTokens(f)[k])
  {
    var required := if f.isOptional then [] else [Required];
    var email := if Contains(LowerStr(f.name), "email") then [Email] else [];
    var kind := if f.typeName == "number" then [NumberCheck] else if f.typeName == "Date" then [DateCheck] else [];
    assert LeafTokens(f) == required + email + kind;
    TokenPieces(required, email, kind);
  }

  /** One of the four validator tokens. */
  predicate IsToken(t: string)
  {
    t == Required || t == Email || t == NumberCheck || t == DateCheck
  }

  /** What the three optional pushes of the scalar branch add up to. */
  lemma TokenPieces(required: seq<string>, email: seq<string>, kind: seq<string>)
    requires required == [] || required == [Required]
    requires email == [] || email == [Email]
    requires kind == [] || kind == [NumberCheck] || kind == [DateCheck]
    ensures Count(required + email + kind, Required) == |required|
    ensures Email in required + email + kind <==> email != []
    ensures NumberCheck in required + email + kind <==> kind == [NumberCheck]
    ensures DateCheck in required + email + kind <==> kind == [DateCheck]
    ensures forall k :: 0 <= k < |required + email + kind| ==> IsToken((required + email + kind)[k])
    ensures forall j, k :: 0 <= j < k < |required + email + kind| ==>
      TokenRank((required + email + kind)[j]) < TokenRank((required + email + kind)[k])
  {
    assert |Required| == 19 && |Email| == 16 && |NumberCheck| == 25 && |DateCheck| == 23;
    CountAppend(required + email, kind, Required);
    CountAppend(required, email, Required);
  }

  /** The line of a scalar field: `name: ['', [tokens]],`. */
  function LeafLine(f: Field): string
  {
    f.name + ": ['', [" + Join(LeafTokens(f), ", ") + "]],"
  }

  /** What `generateValidators` resolves to for `f`. */
  function Render(f: Field): (r: string)
    ensures StartsWith(r, f.name + ": ")
    decreases f, 1
  {
    if IsScalar(f.typeName) then LeafLine(f)
    else f.name + ": this.fb.group(\n   " + Join(RenderMembers(f), "\n   ") + "\n),"
  }

  /** The `Promise.all` over the members: their renderings in declaration order. */
  function RenderMembers(f: Field): (r: seq<string>)
    ensures |r| == |f.members|
    decreases f, 0
  {
    seq(|f.members|, k requires 0 <= k < |f.members| => Render(f.members[k]))
  }

  /**
   * `generateValidators` itself: the scalar branch pushes its tokens one by
   * one, the group branch renders the members in order and joins them.
   */
  method GenerateValidators(f: Field) returns (line: string)
    ensures line == Render(f)
    decreases f
  {
    if f.typeName == "string" || f.typeName == "number" || f.typeName == "Date" {
      var validators: seq<string> := [];
      if !f.isOptional {
        validators := validators + [Required];
      }
      if Contains(LowerStr(f.name), "email") {
        validators := validators + [Email];
      }
      if f.typeName == "number" {
        validators := validators + [NumberCheck];
      } else if f.typeName == "Date" {
        validators := validators + [DateCheck];
      }
      assert validators == LeafTokens(f);
      line := f.name + ": ['', [" + Join(validators, ", ") + "]],";
      assert line == LeafLine(f);
    } else {
      var lines: seq<string> := [];
      var k := 0;
      while k < |f.members|
        invariant 0 <= k <= |f.members|
        invariant lines == RenderMembers(f)[..k]
      {
        var member := GenerateValidators(f.members[k]);
        lines := lines + [member];
        k := k + 1;
      }
      assert lines == RenderMembers(f);
      line := f.name + ": this.fb.group(\n   " + Join(lines, "\n   ") + "\n),";
    }
  }

  /** `ls` with three spaces before its first line. */
  function Indent(ls: seq<string>): (r: seq<string>)
    ensures |r| == |ls|
  {
    if ls == [] then [] else ["   " + ls[0]] + ls[1..]
  }

  /** The indented line lists of several members, one after the other. */
  function IndentAll(lss: seq<seq<string>>): seq<string>
  {
    if lss == [] then [] else Indent(lss[0]) + IndentAll(lss[1..])
  }

  /**
   * Reference definition of the output, line by line: a scalar field is one
   * line; a group is its header line, the lines of its members with three
   * spaces before each member's first line (a lone three-space line when
   * there are no members), and a closing `),` line.
   */
  function Lines(f: Field): (ls: seq<string>)
    ensures |ls| >= 1
    decreases f, 1
  {
    if IsScalar(f.typeName) then [LeafLine(f)] else GroupLines(f.name, MemberLines(f))
  }

  /** The lines of a group named `name` whose members have the line lists `lss`. */
  function GroupLines(name: string, lss: seq<seq<string>>): seq<string>
  {
    [name + ": this.fb.group("] + (if lss == [] then ["   "] else IndentAll(lss)) + ["),"]
  }

  /** The line lists of the members, in declaration order. */
  function MemberLines(f: Field): (r: seq<seq<string>>)
    ensures |r| == |f.members|
    ensures forall k :: 0 <= k < |r| ==> |r[k]| >= 1
    decreases f, 0
  {
    seq(|f.members|, k requires 0 <= k < |f.members| => Lines(f.members[k]))
  }

  lemma {:induction false} JoinIndent(ls: seq<string>)
    requires |ls| >= 1
    ensures Join(Indent(ls), "\n") == "   " + Join(ls, "\n")
  {
    if |ls| > 1 {
      assert Indent(ls)[1..] == ls[1..];
    }
  }

  /** Joining members with a newline and three spaces is joining their indented lines with newlines. */
  lemma {:induction false} JoinIndentAll(lss: seq<seq<string>>, rs: seq<string>)
    requires |lss| >= 1 && |rs| == |lss|
    requires forall k :: 0 <= k < |lss| ==> |lss[k]| >= 1 && rs[k] == Join(lss[k], "\n")
    ensures |IndentAll(lss)| >= 1
    ensures "   " + Join(rs, "\n   ") == Join(IndentAll(lss), "\n")
  {
    var first := Indent(lss[0]);
    JoinIndent(lss[0]);
    if |lss| == 1 {
      assert IndentAll(lss) == first by {
        assert lss[1..] == [];
        assert first + [] == first;
      }
    } else {
      var others := IndentAll(lss[1..]);
      var rest := Join(rs[1..], "\n   ");
      JoinIndentAll(lss[1..], rs[1..]);
      assert IndentAll(lss) == first + others;
      JoinAppend(first, others, "\n");
      assert Join(rs, "\n   ") == rs[0] + "\n   " + rest;
      Reindent(rs[0], rest);
    }
  }

  /** Moving the three spaces of a separator onto the next line. */
  lemma Reindent(x: string, y: string)
    ensures "   " + (x + "\n   " + y) == ("   " + x) + "\n" + ("   " + y)
  {
    assert "\n   " == "\n" + "   ";
  }

  /** The rendered text is its lines joined with newlines. */
  lemma {:induction false} RenderIsLines(f: Field)
    ensures Render(f) == Join(Lines(f), "\n")
    decreases f
  {
    if !IsScalar(f.typeName) {
      var rs, lss := RenderMembers(f), MemberLines(f);
      forall k | 0 <= k < |f.members|
        ensures rs[k] == Join(lss[k], "\n")
      {
        RenderIsLines(f.members[k]);
      }
      GroupIsLines(f.name, rs, lss);
    }
  }

  /** A group renders as its lines once each member does. */
  lemma {:induction false} GroupIsLines(name: string, rs: seq<string>, lss: seq<seq<string>>)
    requires |rs| == |lss|
    requires forall k :: 0 <= k < |lss| ==> |lss[k]| >= 1 && rs[k] == Join(lss[k], "\n")
    ensures name + ": this.fb.group(\n   " + Join(rs, "\n   ") + "\n)," == Join(GroupLines(name, lss), "\n")
  {
    var head := name + ": this.fb.group(";
    var body := if lss == [] then ["   "] else IndentAll(lss);
    var inner := Join(rs, "\n   ");
    assert "   " + inner == Join(body, "\n") by {
      if lss != [] {
        JoinIndentAll(lss, rs);
      }
    }
    assert GroupLines(name, lss) == [head] + body + ["),"];
    JoinFramed(head, body, "),");
    FrameText(name, inner);
  }

  /** The group text cut at its two line breaks. */
  lemma FrameText(name: string, inner: string)
    ensures name + ": this.fb.group(\n   " + inner + "\n)," ==
      (name + ": this.fb.group(") + "\n" + ("   " + inner) + "\n" + "),"
  {
    assert ": this.fb.group(\n   " == ": this.fb.group(" + "\n" + "   ";
    assert "\n)," == "\n" + "),";
  }

  /** Joining a header line, a non-empty body and a closing line. */
  lemma JoinFramed(head: string, body: seq<string>, tail: string)
    requires |body| >= 1
    ensures Join([head] + body + [tail], "\n") == head + "\n" + Join(body, "\n") + "\n" + tail
  {
    JoinAppend([head], body, "\n");
    JoinAppend([head] + body, [tail], "\n");
  }

  /** Every field name in the tree is free of line breaks. */
  predicate SingleLineNames(f: Field)
    decreases f
  {
    '\n' !in f.name && forall k :: 0 <= k < |f.members| ==> SingleLineNames(f.members[k])
  }

  /** No line of `ls` contains a line break. */
  predicate SingleLines(ls: seq<string>)
  {
    forall j :: 0 <= j < |ls| ==> '\n' !in ls[j]
  }

  lemma {:induction false} JoinKeepsSingleLine(parts: seq<string>, sep: string)
    requires '\n' !in sep
    requires forall k :: 0 <= k < |parts| ==> '\n' !in parts[k]
    ensures '\n' !in Join(parts, sep)
  {
    if |parts| > 1 {
      JoinKeepsSingleLine(parts[1..], sep);
    }
  }

  lemma {:induction false} IndentAllSingleLine(lss: seq<seq<string>>)
    requires forall k :: 0 <= k < |lss| ==> SingleLines(lss[k])
    ensures SingleLines(IndentAll(lss))
  {
    if lss != [] {
      IndentAllSingleLine(lss[1..]);
      var a, b := Indent(lss[0]), IndentAll(lss[1..]);
      assert SingleLines(lss[0]);
      assert SingleLines(a);
      assert IndentAll(lss) == a + b;
    }
  }

  /** With single-line names no produced line contains a line break. */
  lemma {:induction false} LinesSingleLine(f: Field)
    requires SingleLineNames(f)
    ensures SingleLines(Lines(f))
    decreases f
  {
    if IsScalar(f.typeName) {
      LeafLineSingleLine(f);
    } else {
      var lss := MemberLines(f);
      forall k | 0 <= k < |lss|
        ensures SingleLines(lss[k])
      {
        assert lss[k] == Lines(f.members[k]);
        LinesSingleLine(f.members[k]);
      }
      GroupSingleLine(f.name, lss);
    }
  }

  lemma LeafLineSingleLine(f: Field)
    requires '\n' !in f.name
    ensures '\n' !in LeafLine(f)
  {
    TokensSingleLine();
    LeafTokensSpec(f);
    JoinKeepsSingleLine(LeafTokens(f), ", ");
    assert '\n' !in ": ['', [";
    assert '\n' !in "]],";
  }

  lemma TokensSingleLine()
    ensures forall t :: IsToken(t) ==> '\n' !in t
  {
    assert '\n' !in Required;
    assert '\n' !in Email;
    assert '\n' !in NumberCheck;
    assert '\n' !in DateCheck;
  }

  lemma GroupSingleLine(name: string, lss: seq<seq<string>>)
    requires '\n' !in name
    requires forall k :: 0 <= k < |lss| ==> SingleLines(lss[k])
    ensures SingleLines(GroupLines(name, lss))
  {
    IndentAllSingleLine(lss);
    assert '\n' !in ": this.fb.group(";
  }

  /**
   * With single-line field names, the lines of the rendered text are exactly
   * `Lines(f)`: one line per scalar field, a header and a closing line per
   * group, members in declaration order at every depth.
   */
  lemma RenderedLines(f: Field)
    requires SingleLineNames(f)
    ensures Split(Render(f), '\n') == Lines(f)
  {
    RenderIsLines(f);
    LinesSingleLine(f);
    SplitJoin(Lines(f), '\n');
  }
}
