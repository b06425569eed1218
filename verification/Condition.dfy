/** Evaluating a condition on a record, and the pattern table a stage compiles for it
    (crates/core/src/condition.rs:164-272, crates/stages/src/condition.rs:18-65). */
module Condition {
  import opened Wrappers
  import opened ConditionParser
  import opened Fields
  import J = Json
  import opened PathWalk
  import PathText
  import Sequences

  // ----- comparing -----

  datatype Ordering = Less | Equal | Greater

  function CompareReals(a: real, b: real): Ordering {
    if a < b then Less else if a == b then Equal else Greater
  }

  function CompareText(a: string, b: string): Ordering {
    if a == [] && b == [] then Equal
    else if a == [] then Less
    else if b == [] then Greater
    else if a[0] < b[0] then Less
    else if a[0] > b[0] then Greater
    else CompareText(a[1..], b[1..])
  }

  function AsReal(n: Num): real {
    match n
    case Int(i) => i as real
    case Float(f) => f
  }

  /** Two integers compare as integers; with a float on either side both compare as floats. */
  function CompareNums(a: Num, b: Num): Ordering {
    match (a, b)
    case (Int(i), Int(j)) => if i < j then Less else if i == j then Equal else Greater
    case _ => CompareReals(AsReal(a), AsReal(b))
  }

  function Order(value: FieldValue, literal: Literal): Option<Ordering> {
    match (value, literal)
    case (Num(a), IntLit(b)) => Some(CompareNums(a, Int(b)))
    case (Num(a), FloatLit(b)) => Some(CompareNums(a, Float(b)))
    case (Str(a), StrLit(b)) => Some(CompareText(a, b))
    case _ => None
  }

  predicate Equals(value: FieldValue, literal: Literal) {
    match (value, literal)
    case (Null, NullLit) => true
    case (Bool(a), BoolLit(b)) => a == b
    case (Str(a), StrLit(b)) => a == b
    case (Num(_), IntLit(_)) => Order(value, literal) == Some(Equal)
    case (Num(_), FloatLit(_)) => Order(value, literal) == Some(Equal)
    case _ => false
  }

  predicate CompareValue(value: FieldValue, op: CompareOp, literal: Literal) {
    match op
    case Eq => Equals(value, literal)
    case Ne => !Equals(value, literal)
    case Lt => Order(value, literal) == Some(Less)
    case Gt => Order(value, literal) == Some(Greater)
    case Le => Order(value, literal) == Some(Less) || Order(value, literal) == Some(Equal)
    case Ge => Order(value, literal) == Some(Greater) || Order(value, literal) == Some(Equal)
    case Match | NotMatch => false
  }

  // ----- evaluating -----

  /** A record and what the pipeline knows of it. */
  datatype Subject = Subject(value: J.Value, meta: Meta)

  /** What a pattern is asked of a text; the engine behind it may fail. */
  type Regex<!E> = (string, string) -> Result<bool, E>

  /** A result, and the questions put to the engine on the way to it. */
  datatype Evaluation<+E> = Evaluation(r: Result<bool, E>, asked: seq<(string, string)>)

  predicate IsRegexLeaf(c: ConditionParser.Condition) {
    c.Compare? && IsRegexOp(c.op) && c.literal.StrLit?
  }

  function Evaluate<E>(c: ConditionParser.Condition, on: Subject, regex: Regex<E>): Evaluation<E> {
    match c
    case Compare(field, op, literal) =>
      var value := ReadPath(field, on.value, on.meta);
      if !IsRegexLeaf(c) then Evaluation(Ok(CompareValue(value, op, literal)), [])
      else if !value.Str? then Evaluation(Ok(op == NotMatch), [])
      else
        var r := match regex(literal.text, value.text)
          case Err(e) => Err(e)
          case Ok(matched) => Ok(if op == Match then matched else !matched);
        Evaluation(r, [(literal.text, value.text)])
    case And(left, right) =>
      var first := Evaluate(left, on, regex);
      if first.r.Err? || !first.r.value then first
      else
        var second := Evaluate(right, on, regex);
        Evaluation(second.r, first.asked + second.asked)
    case Or(left, right) =>
      var first := Evaluate(left, on, regex);
      if first.r.Err? || first.r.value then first
      else
        var second := Evaluate(right, on, regex);
        Evaluation(second.r, first.asked + second.asked)
    case Not(inner) =>
      var first := Evaluate(inner, on, regex);
      if first.r.Err? then first else Evaluation(Ok(!first.r.value), first.asked)
  }

  /** The pattern of every regex leaf in tree order, duplicates included. */
  function RegexPatterns(c: ConditionParser.Condition): seq<string> {
    match c
    case Compare(_, _, literal) => if IsRegexLeaf(c) then [literal.text] else []
    case And(left, right) => RegexPatterns(left) + RegexPatterns(right)
    case Or(left, right) => RegexPatterns(left) + RegexPatterns(right)
    case Not(inner) => RegexPatterns(inner)
  }

  // ----- what a path and a literal compare -----

  /** What stands under a path in a record equals the literal; nothing there is as good as null. */
  ghost predicate StandsThere(found: Option<J.Value>, literal: Literal) {
    match literal
    case NullLit => found == None || found == Some(J.Null)
    case BoolLit(b) => found == Some(J.Bool(b))
    case IntLit(i) => found.Some? && found.value.Number? && RealOf(found.value.n) == i as real
    case FloatLit(f) => found.Some? && found.value.Number? && RealOf(found.value.n) == f
    case StrLit(text) => found == Some(J.Str(text))
  }

  function RealOf(n: J.Number): real {
    match n
    case Int(i) => i as real
    case Float(f) => f
  }

  /** Equality with a literal, path by path: the record's own values, lists and objects equal to none, and
      the four values of its `Meta`. */
  lemma EqualityMeans(on: Subject, segments: seq<string>, literal: Literal)
    ensures CompareValue(ReadPath(PathText.Record(segments), on.value, on.meta), Eq, literal) <==>
            StandsThere(ReadAt(on.value, segments), literal)
    ensures CompareValue(ReadPath(PathText.Meta(PathText.Tenant), on.value, on.meta), Eq, literal) <==>
            literal == StrLit(on.meta.tenant)
    ensures CompareValue(ReadPath(PathText.Meta(PathText.Id), on.value, on.meta), Eq, literal) <==>
            StandsThere(Some(J.Number(J.Int(on.meta.id))), literal)
    ensures CompareValue(ReadPath(PathText.Meta(PathText.IngestionTime), on.value, on.meta), Eq, literal) <==>
            StandsThere(Some(J.Number(J.Int(on.meta.ingestionTime))), literal)
    ensures CompareValue(ReadPath(PathText.Meta(PathText.DeliveryCount), on.value, on.meta), Eq, literal) <==>
            StandsThere(Some(J.Number(J.Int(on.meta.deliveryCount))), literal)
  {
    hide ReadAt;
  }

  // ----- what a condition means -----

  /** Dictionary order: `a` ends first, or is smaller where they first differ. */
  ghost predicate Before(a: string, b: string) {
    exists k: nat :: DiffersAt(a, b, k) && k < |b| && (k == |a| || a[k] < b[k])
  }

  ghost predicate DiffersAt(a: string, b: string, k: nat) {
    k <= |a| && k <= |b| && a[..k] == b[..k]
  }

  ghost predicate Below(value: FieldValue, literal: Literal) {
    || (value.Num? && literal.IntLit? && AsReal(value.n) < literal.i as real)
    || (value.Num? && literal.FloatLit? && AsReal(value.n) < literal.f)
    || (value.Str? && literal.StrLit? && Before(value.text, literal.text))
  }

  ghost predicate Above(value: FieldValue, literal: Literal) {
    || (value.Num? && literal.IntLit? && AsReal(value.n) > literal.i as real)
    || (value.Num? && literal.FloatLit? && AsReal(value.n) > literal.f)
    || (value.Str? && literal.StrLit? && Before(literal.text, value.text))
  }

  ghost predicate Same(value: FieldValue, literal: Literal) {
    || (value.Null? && literal.NullLit?)
    || (value.Bool? && literal.BoolLit? && value.b == literal.b)
    || (value.Num? && literal.IntLit? && AsReal(value.n) == literal.i as real)
    || (value.Num? && literal.FloatLit? && AsReal(value.n) == literal.f)
    || (value.Str? && literal.StrLit? && value.text == literal.text)
  }

  /** Both are numbers or both are strings. */
  ghost predicate Ordered(value: FieldValue, literal: Literal) {
    (value.Num? && (literal.IntLit? || literal.FloatLit?)) || (value.Str? && literal.StrLit?)
  }

  /** The truth of one leaf when every pattern has a plain answer. */
  ghost predicate LeafHolds(value: FieldValue, op: CompareOp, literal: Literal, matching: (string, string) -> bool) {
    match op
    case Eq => Same(value, literal)
    case Ne => !Same(value, literal)
    case Lt => Below(value, literal)
    case Gt => Above(value, literal)
    case Le => Ordered(value, literal) && !Above(value, literal)
    case Ge => Ordered(value, literal) && !Below(value, literal)
    case Match => literal.StrLit? && value.Str? && matching(literal.text, value.text)
    case NotMatch => literal.StrLit? && !(value.Str? && matching(literal.text, value.text))
  }

  /** The Boolean meaning of the tree. */
  ghost predicate Holds(c: ConditionParser.Condition, on: Subject, matching: (string, string) -> bool) {
    match c
    case Compare(field, op, literal) => LeafHolds(ReadPath(field, on.value, on.meta), op, literal, matching)
    case And(left, right) => Holds(left, on, matching) && Holds(right, on, matching)
    case Or(left, right) => Holds(left, on, matching) || Holds(right, on, matching)
    case Not(inner) => !Holds(inner, on, matching)
  }

  // ----- evaluation is the meaning -----

  lemma {:induction false} TextOrderIsDictionaryOrder(a: string, b: string)
    ensures CompareText(a, b) == Less <==> Before(a, b)
    ensures CompareText(a, b) == Greater <==> Before(b, a)
    ensures CompareText(a, b) == Equal <==> a == b
  {
    if a == [] || b == [] || a[0] != b[0] {
      assert DiffersAt(a, b, 0) && DiffersAt(b, a, 0);
      forall k: nat ensures (DiffersAt(a, b, k) || DiffersAt(b, a, k)) && a != [] && b != [] ==> k == 0 {
        FirstOfPrefix(a, b, k);
        FirstOfPrefix(b, a, k);
      }
    } else {
      TextOrderIsDictionaryOrder(a[1..], b[1..]);
      BeforeStep(a, b);
      BeforeStep(b, a);
      assert a == [a[0]] + a[1..] && b == [b[0]] + b[1..];
    }
  }

  lemma FirstOfPrefix(a: string, b: string, k: nat)
    ensures DiffersAt(a, b, k) && k > 0 ==> a != [] && b != [] && a[0] == b[0]
  {
    if DiffersAt(a, b, k) && k > 0 {
      assert a[0] == a[..k][0] && b[0] == b[..k][0];
    }
  }

  lemma BeforeStep(a: string, b: string)
    requires a != [] && b != [] && a[0] == b[0]
    ensures Before(a, b) <==> Before(a[1..], b[1..])
  {
    if Before(a, b) {
      var k: nat :| DiffersAt(a, b, k) && k < |b| && (k == |a| || a[k] < b[k]);
      assert k > 0;
      assert a[1..][..k - 1] == a[..k][1..] && b[1..][..k - 1] == b[..k][1..];
      assert DiffersAt(a[1..], b[1..], k - 1);
    }
    if Before(a[1..], b[1..]) {
      var k: nat :| DiffersAt(a[1..], b[1..], k) && k < |b[1..]| && (k == |a[1..]| || a[1..][k] < b[1..][k]);
      assert a[..k + 1] == [a[0]] + a[1..][..k] && b[..k + 1] == [b[0]] + b[1..][..k];
      assert DiffersAt(a, b, k + 1);
    }
  }

  lemma LeafIsItsMeaning(value: FieldValue, op: CompareOp, literal: Literal)
    requires !IsRegexOp(op)
    ensures CompareValue(value, op, literal) <==> LeafHolds(value, op, literal, (p, t) => false)
  {
    if value.Str? && literal.StrLit? {
      TextOrderIsDictionaryOrder(value.text, literal.text);
    }
  }

  /** For an engine that always answers, short-circuit evaluation is the Boolean meaning. */
  lemma {:induction false} EvaluationIsMeaning<E>(c: ConditionParser.Condition, on: Subject, regex: Regex<E>,
      matching: (string, string) -> bool)
    requires forall p, t :: regex(p, t) == Ok(matching(p, t))
    ensures Evaluate(c, on, regex).r == Ok(Holds(c, on, matching))
  {
    match c
    case Compare(field, op, literal) =>
      if !IsRegexOp(op) {
        LeafIsItsMeaning(ReadPath(field, on.value, on.meta), op, literal);
      }
    case And(left, right) =>
      EvaluationIsMeaning(left, on, regex, matching);
      EvaluationIsMeaning(right, on, regex, matching);
    case Or(left, right) =>
      EvaluationIsMeaning(left, on, regex, matching);
      EvaluationIsMeaning(right, on, regex, matching);
    case Not(inner) =>
      EvaluationIsMeaning(inner, on, regex, matching);
  }

  /** Of two comparable values exactly one of `<`, `==` and `>` holds; on anything else only
      `!=` does, unless both are null or both are booleans. */
  lemma ExactlyOneOrder(value: FieldValue, literal: Literal)
    ensures Ordered(value, literal) ==> (CompareValue(value, Lt, literal) <==> !CompareValue(value, Ge, literal))
    ensures Ordered(value, literal) ==> (CompareValue(value, Gt, literal) <==> !CompareValue(value, Le, literal))
    ensures Ordered(value, literal) ==>
      (CompareValue(value, Eq, literal) <==> CompareValue(value, Le, literal) && CompareValue(value, Ge, literal))
    ensures !Ordered(value, literal) ==>
      forall op :: op in {Lt, Gt, Le, Ge} ==> !CompareValue(value, op, literal)
    ensures !Ordered(value, literal) && !(value.Null? && literal.NullLit?) && !(value.Bool? && literal.BoolLit?) ==>
      CompareValue(value, Ne, literal)
  {
    if value.Str? && literal.StrLit? {
      TextOrderIsDictionaryOrder(value.text, literal.text);
    }
  }

  // ----- what is asked -----

  ghost predicate AllListed(asked: seq<(string, string)>, patterns: seq<string>) {
    forall i :: 0 <= i < |asked| ==> asked[i].0 in patterns
  }

  /** Only listed patterns are asked for; all answers but the last were given without error,
      and an error is the answer to the last question. */
  lemma {:induction false} AsksOnlyListedPatterns<E>(c: ConditionParser.Condition, on: Subject, regex: Regex<E>)
    ensures AllListed(Evaluate(c, on, regex).asked, RegexPatterns(c))
    ensures var v := Evaluate(c, on, regex);
      forall i :: 0 <= i < |v.asked| && (v.r.Ok? || i < |v.asked| - 1) ==> regex(v.asked[i].0, v.asked[i].1).Ok?
    ensures var v := Evaluate(c, on, regex); v.r.Err? ==>
      v.asked != [] && regex(v.asked[|v.asked| - 1].0, v.asked[|v.asked| - 1].1) == Err(v.r.error)
  {
    match c
    case Compare(_, _, _) =>
    case And(left, right) =>
      AsksOnlyListedPatterns(left, on, regex);
      AsksOnlyListedPatterns(right, on, regex);
    case Or(left, right) =>
      AsksOnlyListedPatterns(left, on, regex);
      AsksOnlyListedPatterns(right, on, regex);
    case Not(inner) =>
      AsksOnlyListedPatterns(inner, on, regex);
  }

  /** Two engines that agree on the listed patterns give one evaluation. */
  lemma {:induction false} AgreeingEnginesAgree<E>(c: ConditionParser.Condition, on: Subject, r: Regex<E>, s: Regex<E>)
    requires forall p, t :: p in RegexPatterns(c) ==> r(p, t) == s(p, t)
    ensures Evaluate(c, on, r) == Evaluate(c, on, s)
  {
    match c
    case Compare(field, op, literal) =>
      assert IsRegexLeaf(c) ==> literal.text in RegexPatterns(c);
    case And(left, right) =>
      AgreeingEnginesAgree(left, on, r, s);
      AgreeingEnginesAgree(right, on, r, s);
    case Or(left, right) =>
      AgreeingEnginesAgree(left, on, r, s);
      AgreeingEnginesAgree(right, on, r, s);
    case Not(inner) =>
      AgreeingEnginesAgree(inner, on, r, s);
  }

  // ----- the compiled table -----

  /** A compiled pattern: what it says of a text. */
  type Engine<!E> = string -> Result<bool, E>

  /** Pattern to engine, or why the pattern is refused. */
  type Compiler<!E, !F> = string -> Result<Engine<E>, F>

  /** A table holding exactly the listed patterns, each as it compiled. */
  ghost predicate IsTable<E, F>(table: map<string, Engine<E>>, patterns: seq<string>, compiler: Compiler<E, F>) {
    && (forall p :: p in table <==> p in patterns)
    && (forall p :: p in table ==> compiler(p) == Ok(table[p]))
  }

  /** `CompiledCondition::compile`: one entry for each distinct pattern; the first pattern in
      tree order that does not compile is the error. */
  method CompilePatterns<E, F>(c: ConditionParser.Condition, compiler: Compiler<E, F>)
      returns (r: Result<map<string, Engine<E>>, F>)
    ensures r.Ok? ==> IsTable(r.value, RegexPatterns(c), compiler)
    ensures r.Err? ==> exists i :: 0 <= i < |RegexPatterns(c)| && FirstRefused(RegexPatterns(c), compiler, i, r.error)
  {
    var patterns := RegexPatterns(c);
    var table: map<string, Engine<E>> := map[];
    for i := 0 to |patterns|
      invariant IsTable(table, patterns[..i], compiler)
    {
      Sequences.TakeNext(patterns, i);
      if patterns[i] in table {
        continue;
      }
      var compiled := compiler(patterns[i]);
      if compiled.Err? {
        assert FirstRefused(patterns, compiler, i, compiled.error) by {
          forall j | 0 <= j < i ensures compiler(patterns[j]).Ok? {
            assert patterns[j] in patterns[..i];
          }
        }
        return Err(compiled.error);
      }
      table := table[patterns[i] := compiled.value];
    }
    assert patterns[..|patterns|] == patterns;
    r := Ok(table);
  }

  ghost predicate FirstRefused<E, F>(patterns: seq<string>, compiler: Compiler<E, F>, i: nat, error: F) {
    && i < |patterns|
    && compiler(patterns[i]) == Err(error)
    && forall j :: 0 <= j < i ==> compiler(patterns[j]).Ok?
  }

  /** Asking the table; a pattern it does not hold would match nothing. */
  function Lookup<E>(table: map<string, Engine<E>>): Regex<E> {
    (pattern, text) => if pattern in table then table[pattern](text) else Ok(false)
  }

  /** `CompiledCondition::matches`. */
  function Matches<E>(c: ConditionParser.Condition, on: Subject, table: map<string, Engine<E>>): Result<bool, E> {
    Evaluate(c, on, Lookup(table)).r
  }

  /** The lookup never misses: evaluation through the table is evaluation by the compiled
      engines, and every question asked finds an entry. */
  lemma TableNeverMisses<E, F>(c: ConditionParser.Condition, on: Subject, table: map<string, Engine<E>>,
      compiler: Compiler<E, F>, direct: Regex<E>)
    requires IsTable(table, RegexPatterns(c), compiler)
    requires forall p, t :: compiler(p).Ok? ==> direct(p, t) == compiler(p).value(t)
    ensures Evaluate(c, on, Lookup(table)) == Evaluate(c, on, direct)
    ensures forall i :: 0 <= i < |Evaluate(c, on, Lookup(table)).asked| ==>
      Evaluate(c, on, Lookup(table)).asked[i].0 in table
  {
    AgreeingEnginesAgree(c, on, Lookup(table), direct);
    AsksOnlyListedPatterns(c, on, Lookup(table));
  }

  /** When every pattern is listed once or more and the engines never fail, the stage's answer
      is the condition's meaning. */
  lemma MatchesIsMeaning<E, F>(c: ConditionParser.Condition, on: Subject, table: map<string, Engine<E>>,
      compiler: Compiler<E, F>, matching: (string, string) -> bool)
    requires IsTable(table, RegexPatterns(c), compiler)
    requires forall p, t :: compiler(p).Ok? ==> compiler(p).value(t) == Ok(matching(p, t))
    ensures Matches(c, on, table) == Ok(Holds(c, on, matching))
  {
    var total: Regex<E> := (p, t) => Ok(matching(p, t));
    TableNeverMisses(c, on, table, compiler, total);
    EvaluationIsMeaning(c, on, total, matching);
  }
}
