/**
 * The `@AlphabeticalOrdering` peer macro. It accepts an enum, whose case
 * names must be in alphabetical order, or a variable initialised with an
 * array literal of calls `[f(), g(), ...]`, whose callee names must be in
 * alphabetical order. It never adds declarations: it either returns no peers
 * or fails the expansion.
 */
module AlphabeticalOrdering {
  import opened Syntax
  import opened Lexicographic

  datatype OrderingError =
    | InvalidUsage
    | NotAlphabeticallyOrdered(offending: string, before: string)

  const Attribute: string := "@AlphabeticalOrdering"
  const InvalidUsageMessage: string :=
    Attribute + " can be attached only to enum or array literal declaration with function calls."
  const NotOrderedPrefix: string := "Elements are not alphabetically ordered. "
  const IsBefore: string := " is before "

  /** The diagnostic text of an error: the fixed usage message, or the prefix, the offending name, " is before " and the following name. */
  function Description(e: OrderingError): (r: string)
    ensures e.InvalidUsage? ==> r == InvalidUsageMessage
    ensures e.NotAlphabeticallyOrdered? ==>
      && |r| == |NotOrderedPrefix| + |e.offending| + |IsBefore| + |e.before|
      && r[..|NotOrderedPrefix|] == NotOrderedPrefix
      && r[|NotOrderedPrefix|..|NotOrderedPrefix| + |e.offending|] == e.offending
      && r[|NotOrderedPrefix| + |e.offending|..|r| - |e.before|] == IsBefore
      && r[|r| - |e.before|..] == e.before
    ensures r[0] == '@' <==> e.InvalidUsage?
  {
    match e
    case InvalidUsage =>
      assert InvalidUsageMessage[0] == Attribute[0];
      InvalidUsageMessage
    case NotAlphabeticallyOrdered(offending, before) =>
      var r := NotOrderedPrefix + offending + IsBefore + before;
      assert r[0] == NotOrderedPrefix[0];
      r
  }

  /**
   * How a call ends: it returns, it throws an OrderingError, or it traps
   * (a Swift runtime failure, which aborts the compiler plugin itself).
   */
  datatype Outcome<+T> = Returned(value: T) | Thrown(error: OrderingError) | Trapped

  /** Swift's `a > b` on strings, which is `b < a`. */
  predicate Greater(a: string, b: string)
  {
    Less(b, a)
  }

  /** No adjacent pair of `s` is out of order. */
  predicate Ordered(s: seq<string>)
  {
    forall i :: 0 <= i < |s| - 1 ==> !Greater(s[i], s[i + 1])
  }

  /** `i` is the first index whose pair `(s[i], s[i + 1])` is out of order. */
  predicate IsFirstViolation(s: seq<string>, i: int)
  {
    && 0 <= i < |s| - 1
    && Greater(s[i], s[i + 1])
    && forall j :: 0 <= j < i ==> !Greater(s[j], s[j + 1])
  }

  /** The first out-of-order pair at or after index `from`, scanning left to right. */
  function FirstViolation(s: seq<string>, from: nat): (r: Option<nat>)
    ensures r.Some? ==>
      && from <= r.value < |s| - 1
      && Greater(s[r.value], s[r.value + 1])
      && forall j :: from <= j < r.value ==> !Greater(s[j], s[j + 1])
    ensures r.None? ==> forall j :: from <= j < |s| - 1 ==> !Greater(s[j], s[j + 1])
    decreases |s| - from
  {
    if from + 1 >= |s| then None
    else if Greater(s[from], s[from + 1]) then Some(from)
    else FirstViolation(s, from + 1)
  }

  /**
   * What `checkOrdering` does with a list of names: trap on the empty list
   * (its loop range `0..<count-1` is then invalid), throw on the first
   * out-of-order adjacent pair, and return otherwise.
   */
  function Checked(s: seq<string>): (r: Outcome<()>)
    ensures r.Trapped? <==> |s| == 0
    ensures r.Returned? <==> |s| > 0 && Ordered(s)
    ensures r.Thrown? ==> r.error.NotAlphabeticallyOrdered?
    ensures forall i :: IsFirstViolation(s, i) ==> r == Thrown(NotAlphabeticallyOrdered(s[i], s[i + 1]))
  {
    if |s| == 0 then Trapped
    else match FirstViolation(s, 0)
      case None => Returned(())
      case Some(i) => Thrown(NotAlphabeticallyOrdered(s[i], s[i + 1]))
  }

  /** The loop of `checkOrdering`: the adjacent-pair scan with an early throw. */
  method CheckOrdering(s: seq<string>) returns (r: Outcome<()>)
    ensures r == Checked(s)
  {
    if |s| == 0 {
      // `0..<self.count-1` is the range 0..<-1, which Swift refuses at run time
      return Trapped;
    }
    for i := 0 to |s| - 1
      invariant FirstViolation(s, i) == FirstViolation(s, 0)
    {
      if Greater(s[i], s[i + 1]) {
        return Thrown(NotAlphabeticallyOrdered(s[i], s[i + 1]));
      }
    }
    return Returned(());
  }

  /** The check passes exactly on a non-empty list whose adjacent names are in non-decreasing order; equal neighbours are accepted. */
  lemma CheckedPassesIffNonDecreasing(s: seq<string>)
    ensures Checked(s) == Returned(()) <==>
      |s| > 0 && forall i :: 0 <= i < |s| - 1 ==> LessOrEqual(s[i], s[i + 1])
  {
    forall i | 0 <= i < |s| - 1 {
      NotLessIsLessOrEqual(s[i], s[i + 1]);
    }
  }

  /** A list that passes the check is sorted as a whole, not only pair by pair. */
  lemma {:induction false} CheckedPassImpliesSorted(s: seq<string>, i: int, j: int)
    requires Checked(s) == Returned(())
    requires 0 <= i <= j < |s|
    ensures LessOrEqual(s[i], s[j])
    decreases j - i
  {
    if i < j {
      CheckedPassImpliesSorted(s, i, j - 1);
      NotLessIsLessOrEqual(s[j - 1], s[j]);
      LessOrEqualTransitive(s[i], s[j - 1], s[j]);
    }
  }

  /** A failed check names the first out-of-order pair; every earlier pair is in order. */
  lemma CheckedReportsFirstViolation(s: seq<string>)
    requires Checked(s).Thrown?
    ensures exists i :: IsFirstViolation(s, i) && Checked(s).error == NotAlphabeticallyOrdered(s[i], s[i + 1])
  {
    var i := FirstViolation(s, 0).value;
    assert IsFirstViolation(s, i);
  }

  /** The case names of one member: the names of a `case` line, left to right; nothing for any other member. */
  function CaseNames(item: MemberBlockItem): (names: seq<string>)
    ensures item.decl.EnumCaseDecl? ==>
      |names| == |item.decl.elements| &&
      forall k :: 0 <= k < |names| ==> names[k] == item.decl.elements[k].name
    ensures !item.decl.EnumCaseDecl? ==> names == []
  {
    match item.decl
    case EnumCaseDecl(elements) => seq(|elements|, k requires 0 <= k < |elements| => elements[k].name)
    case _ => []
  }

  /** The names `checkEnumOrdering` checks: the members' case names, flattened in member order. */
  function EnumCaseNames(members: seq<MemberBlockItem>): (names: seq<string>)
    ensures names == [] <==> forall i :: 0 <= i < |members| ==> CaseNames(members[i]) == []
  {
    if members == [] then [] else CaseNames(members[0]) + EnumCaseNames(members[1..])
  }

  lemma {:induction false} EnumCaseNamesAppend(a: seq<MemberBlockItem>, b: seq<MemberBlockItem>)
    ensures EnumCaseNames(a + b) == EnumCaseNames(a) + EnumCaseNames(b)
    decreases |a|
  {
    if a != [] {
      assert (a + b)[1..] == a[1..] + b;
      EnumCaseNamesAppend(a[1..], b);
    } else {
      assert a + b == b;
    }
  }

  /** A member that is not a `case` line contributes nothing, wherever it stands. */
  lemma NonCaseMemberSkipped(a: seq<MemberBlockItem>, m: MemberBlockItem, b: seq<MemberBlockItem>)
    requires !m.decl.EnumCaseDecl?
    ensures EnumCaseNames(a + [m] + b) == EnumCaseNames(a + b)
  {
    assert [m][1..] == [];
    assert EnumCaseNames([m]) == [];
    EnumCaseNamesAppend(a, [m]);
    assert EnumCaseNames(a + [m]) == EnumCaseNames(a);
    EnumCaseNamesAppend(a + [m], b);
    EnumCaseNamesAppend(a, b);
  }

  /** A name is extracted exactly when some `case` line of the enum declares it. */
  lemma {:induction false} EnumCaseNamesMembership(members: seq<MemberBlockItem>, x: string)
    ensures x in EnumCaseNames(members) <==>
      exists i, k :: 0 <= i < |members| && members[i].decl.EnumCaseDecl? &&
        0 <= k < |members[i].decl.elements| && members[i].decl.elements[k].name == x
    decreases |members|
  {
    if members != [] {
      EnumCaseNamesMembership(members[1..], x);
      var head := CaseNames(members[0]);
      if x in head {
        var k :| 0 <= k < |head| && head[k] == x;
        assert members[0].decl.elements[k].name == x;
      }
      if x in EnumCaseNames(members[1..]) {
        var i, k :| 0 <= i < |members[1..]| && members[1..][i].decl.EnumCaseDecl? &&
          0 <= k < |members[1..][i].decl.elements| && members[1..][i].decl.elements[k].name == x;
        assert members[i + 1] == members[1..][i];
      }
      forall i, k | 0 <= i < |members| && members[i].decl.EnumCaseDecl? &&
          0 <= k < |members[i].decl.elements| && members[i].decl.elements[k].name == x
        ensures x in EnumCaseNames(members)
      {
        if i == 0 {
          assert head[k] == x;
        } else {
          assert members[1..][i - 1] == members[i];
        }
      }
    }
  }

  /** `checkEnumOrdering`: never invalidUsage; traps when no member declares a case, passes when the case names are in order. */
  function CheckEnumOrdering(members: seq<MemberBlockItem>): (r: Outcome<()>)
    ensures r.Trapped? <==> forall i :: 0 <= i < |members| ==> CaseNames(members[i]) == []
    ensures r.Returned? <==> EnumCaseNames(members) != [] && Ordered(EnumCaseNames(members))
    ensures r.Thrown? ==> r.error.NotAlphabeticallyOrdered?
  {
    Checked(EnumCaseNames(members))
  }

  /** The callee of an array element `f(...)` whose callee is a plain name; None for any other element. */
  function CalleeName(element: ArrayElement): (r: Option<string>)
    ensures r.Some? <==> element.expression.FunctionCall? && element.expression.calledExpression.DeclReference?
    ensures r.Some? ==> r.value == element.expression.calledExpression.baseName
  {
    match element.expression
    case FunctionCall(DeclReference(baseName), _) => Some(baseName)
    case _ => None
  }

  /** The throwing `map` of `checkArrayOrdering`: all callee names, or None as soon as one element is not a plain call. */
  function CalleeNames(elements: seq<ArrayElement>): (r: Option<seq<string>>)
    ensures r.Some? <==> forall k :: 0 <= k < |elements| ==> CalleeName(elements[k]).Some?
    ensures r.Some? ==>
      |r.value| == |elements| && forall k :: 0 <= k < |elements| ==> CalleeName(elements[k]) == Some(r.value[k])
  {
    if elements == [] then Some([])
    else match CalleeName(elements[0])
      case None => None
      case Some(name) =>
        match CalleeNames(elements[1..])
        case None => None
        case Some(rest) => Some([name] + rest)
  }

  /** The array literal `checkArrayOrdering` looks at: the initializer of the first binding, when it is one. */
  function FirstArrayLiteral(bindings: seq<PatternBinding>): (r: Option<seq<ArrayElement>>)
    ensures r.Some? <==>
      |bindings| > 0 && bindings[0].initializer.Some? && bindings[0].initializer.value.ArrayLiteral?
    ensures r.Some? ==> r.value == bindings[0].initializer.value.elements
  {
    if |bindings| == 0 then None
    else match bindings[0].initializer
      case Some(ArrayLiteral(elements)) => Some(elements)
      case _ => None
  }

  /** `checkArrayOrdering`: invalidUsage exactly for a malformed declaration, otherwise the ordering check of the callee names. */
  function CheckArrayOrdering(bindings: seq<PatternBinding>): (r: Outcome<()>)
    ensures r == Thrown(InvalidUsage) <==> !WellFormedArray(bindings)
    ensures WellFormedArray(bindings) ==>
      var elements := FirstArrayLiteral(bindings).value;
      exists names: seq<string> ::
        && |names| == |elements|
        && (forall k :: 0 <= k < |elements| ==> names[k] == elements[k].expression.calledExpression.baseName)
        && r == Checked(names)
  {
    match FirstArrayLiteral(bindings)
    case None => Thrown(InvalidUsage)
    case Some(elements) =>
      match CalleeNames(elements)
      case None => Thrown(InvalidUsage)
      case Some(names) => Checked(names)
  }

  /** Forgets the value of a finished check: a successful check adds no peers. */
  function NoPeers(o: Outcome<()>): Outcome<seq<Decl>>
  {
    match o
    case Returned(_) => Returned([])
    case Thrown(e) => Thrown(e)
    case Trapped => Trapped
  }

  /** The peer expansion: dispatch on the declaration kind. */
  function Expansion(declaration: Decl): (r: Outcome<seq<Decl>>)
    ensures r.Returned? ==> r.value == []
    ensures !declaration.EnumDecl? && !declaration.VariableDecl? ==> r == Thrown(InvalidUsage)
  {
    match declaration
    case EnumDecl(_, members) => NoPeers(CheckEnumOrdering(members))
    case VariableDecl(bindings) => NoPeers(CheckArrayOrdering(bindings))
    case _ => Thrown(InvalidUsage)
  }

  /** An enum passes exactly when its case names are non-empty and in order; otherwise it fails on its first out-of-order pair, or traps when it has no case names. */
  lemma EnumExpansion(name: string, members: seq<MemberBlockItem>)
    ensures var names := EnumCaseNames(members);
      && (Expansion(EnumDecl(name, members)) == Returned([]) <==> |names| > 0 && Ordered(names))
      && (Expansion(EnumDecl(name, members)) == Trapped <==> names == [])
      && forall i :: IsFirstViolation(names, i) ==>
           Expansion(EnumDecl(name, members)) == Thrown(NotAlphabeticallyOrdered(names[i], names[i + 1]))
  {
  }

  /** The array literal has the accepted shape: a first binding initialised with an array literal of plain calls. */
  predicate WellFormedArray(bindings: seq<PatternBinding>)
  {
    && FirstArrayLiteral(bindings).Some?
    && forall k :: 0 <= k < |FirstArrayLiteral(bindings).value| ==>
         CalleeName(FirstArrayLiteral(bindings).value[k]).Some?
  }

  /**
   * A variable declaration throws invalidUsage exactly when it has no first
   * binding, the binding has no initializer, the initializer is no array
   * literal, or some element is not a call of a plain name.
   */
  lemma ArrayInvalidUsage(bindings: seq<PatternBinding>)
    ensures Expansion(VariableDecl(bindings)) == Thrown(InvalidUsage) <==> !WellFormedArray(bindings)
  {
  }

  /**
   * Extraction is all-or-nothing: one malformed element makes the expansion
   * throw invalidUsage, even when the names before it are out of order.
   */
  lemma MalformedElementWins(bindings: seq<PatternBinding>, elements: seq<ArrayElement>, k: int)
    requires FirstArrayLiteral(bindings) == Some(elements)
    requires 0 <= k < |elements| && CalleeName(elements[k]).None?
    ensures Expansion(VariableDecl(bindings)) == Thrown(InvalidUsage)
  {
  }

  /** On a well-formed array the names checked are the callee names in element order. */
  lemma WellFormedArrayChecksCallees(bindings: seq<PatternBinding>)
    requires WellFormedArray(bindings)
    ensures var elements := FirstArrayLiteral(bindings).value;
      exists names: seq<string> ::
        && |names| == |elements|
        && (forall k :: 0 <= k < |elements| ==> names[k] == elements[k].expression.calledExpression.baseName)
        && Expansion(VariableDecl(bindings)) == NoPeers(Checked(names))
  {
    var names := CalleeNames(FirstArrayLiteral(bindings).value).value;
    assert forall k :: 0 <= k < |names| ==> CalleeName(FirstArrayLiteral(bindings).value[k]) == Some(names[k]);
  }

  /** Only the first binding is examined: further bindings never change the outcome. */
  lemma OnlyFirstBindingExamined(first: PatternBinding, rest: seq<PatternBinding>)
    ensures Expansion(VariableDecl([first] + rest)) == Expansion(VariableDecl([first]))
  {
  }

  /** An empty array literal reaches the check with no names and traps. */
  lemma EmptyArrayLiteralTraps(pattern: Pattern, typeAnnotation: Option<TypeText>)
    ensures Expansion(VariableDecl([PatternBinding(pattern, typeAnnotation, Some(ArrayLiteral([])), None)])) == Trapped
  {
  }

  /** `[foo(), bar()]` fails on the pair ("foo", "bar"). */
  lemma FooBarNotOrdered()
    ensures var call := (n: string) => ArrayElement(FunctionCall(DeclReference(n), []));
      Expansion(VariableDecl([PatternBinding(IdentifierPattern("x"), None,
        Some(ArrayLiteral([call("foo"), call("bar")])), None)]))
      == Thrown(NotAlphabeticallyOrdered("foo", "bar"))
  {
    var call := (n: string) => ArrayElement(FunctionCall(DeclReference(n), []));
    var names := CalleeNames([call("foo"), call("bar")]).value;
    assert names == ["foo", "bar"];
    assert Less("bar", "foo");
    assert IsFirstViolation(names, 0);
  }
}
