/** User-defined filters compiled to MongoDB match expressions.

    The compiler folds a list of filters into one object, spreading each filter's own object over
    what it has; an OR filter starts the object anew.  `Means` says what a filter demands of a
    document and `Accepts` what a match expression does. */
module FilterCompiler {
  import opened Common
  import opened LikeRegExp
  import SubEntityClass

  datatype Value = Null | Num(n: int) | Str(s: string) | Bool(b: bool)

  type Document = map<string, Value>

  /** A missing field is compared like null. */
  function Get(doc: Document, field: string): Value {
    if field in doc then doc[field] else Null
  }

  datatype Operator =
    | Eq(v: Value) | Ne(v: Value) | Gt(v: Value) | Lt(v: Value) | Ge(v: Value) | Le(v: Value)
    | In(vs: seq<Value>) | NotIn(vs: seq<Value>)
    | LikeText(pattern: string) | NotLike(pattern: string)
    | IsNull | IsNotNull | Or | Unset

  /** An absent field name is the empty string; both are refused in the same way. */
  datatype UserFilter =
    UserFilter(subEntityPath: string, fieldName: string, op: Operator, orFilters: OrFilters)

  datatype OrFilters = NoFilters | AnyOf(list: seq<UserFilter>)

  /** Which fields of which sub-entities must not be read, by sub-entity path. */
  type ReadDenied = (string, string) -> bool

  // ---------------------------------------------------------------------------------------------
  // Match expressions
  // ---------------------------------------------------------------------------------------------

  datatype Condition =
    | Equals(v: Value) | NotEquals(v: Value) | Greater(v: Value) | Less(v: Value) | AtLeast(v: Value) | AtMost(v: Value)
    | OneOf(vs: seq<Value>) | NoneOf(vs: seq<Value>) | Pattern(src: string) | NotPattern(src: string)

  datatype Match = Match(fields: map<string, Condition>, ors: Alternatives)

  datatype Alternatives = Unrestricted | SomeOf(list: seq<Match>)

  const EMPTY := Match(map[], Unrestricted)

  predicate TextBelow(a: string, b: string) {
    b != [] && (a == [] || a[0] < b[0] || (a[0] == b[0] && TextBelow(a[1..], b[1..])))
  }

  /** Only values of one type are ordered. */
  predicate Below(a: Value, b: Value) {
    match (a, b)
    case (Num(x), Num(y)) => x < y
    case (Str(x), Str(y)) => TextBelow(x, y)
    case (Bool(x), Bool(y)) => !x && y
    case _ => false
  }

  ghost predicate ConditionHolds(e: Engine, c: Condition, x: Value) {
    match c
    case Equals(v) => x == v
    case NotEquals(v) => x != v
    case Greater(v) => Below(v, x)
    case Less(v) => Below(x, v)
    case AtLeast(v) => Below(v, x) || x == v
    case AtMost(v) => Below(x, v) || x == v
    case OneOf(vs) => x in vs
    case NoneOf(vs) => x !in vs
    case Pattern(src) => x.Str? && RegExpTest(e, src, x.s)
    case NotPattern(src) => !(x.Str? && RegExpTest(e, src, x.s))
  }

  ghost predicate Accepts(e: Engine, m: Match, doc: Document) {
    && (forall k :: k in m.fields ==> ConditionHolds(e, m.fields[k], Get(doc, k)))
    && (m.ors.SomeOf? ==> exists i :: 0 <= i < |m.ors.list| && Accepts(e, m.ors.list[i], doc))
  }

  // ---------------------------------------------------------------------------------------------
  // The compiler
  // ---------------------------------------------------------------------------------------------

  datatype Compiled<T> = Done(value: T) | FieldNameMissing | PatternRefused

  /** No sub-entity class is found for the path of the entity itself or for all paths, so nothing is
      read-denied there. */
  predicate Skipped(denied: ReadDenied, f: UserFilter) {
    f.subEntityPath != "" && f.subEntityPath != "*" && f.fieldName != "" && denied(f.subEntityPath, f.fieldName)
  }

  /** The regular expression of a LIKE cannot be constructed. */
  predicate RefusedPattern(e: Engine, op: Operator) {
    (op.LikeText? || op.NotLike?) && Refused(e, Convert(op.pattern))
  }

  predicate IsOr(f: UserFilter) {
    f.op.Or? && f.orFilters.AnyOf?
  }

  /** The object of one operator; an OR without alternatives and an absent operator have none. */
  function ConditionOf(op: Operator): Option<Condition> {
    match op
    case Eq(v) => Some(Equals(v))
    case Ne(v) => Some(NotEquals(v))
    case Gt(v) => Some(Greater(v))
    case Lt(v) => Some(Less(v))
    case Ge(v) => Some(AtLeast(v))
    case Le(v) => Some(AtMost(v))
    case In(vs) => Some(OneOf(vs))
    case NotIn(vs) => Some(NoneOf(vs))
    case LikeText(p) => Some(Pattern(Convert(p)))
    case NotLike(p) => Some(NotPattern(Convert(p)))
    case IsNull => Some(Equals(Null))
    case IsNotNull => Some(NotEquals(Null))
    case Or => None
    case Unset => None
  }

  /** One step of the reduction. */
  function CompileOne(e: Engine, denied: ReadDenied, acc: Match, f: UserFilter): Compiled<Match>
    decreases f, 0
  {
    if Skipped(denied, f) then Done(acc)
    else if IsOr(f) then
      match CompileAlternatives(e, denied, f.orFilters.list)
      case Done(ms) => Done(Match(map[], SomeOf(ms)))
      case FieldNameMissing => FieldNameMissing
      case PatternRefused => PatternRefused
    else if f.fieldName == "" then FieldNameMissing
    else if RefusedPattern(e, f.op) then PatternRefused
    else
      var c := ConditionOf(f.op);
      Done(if c.Some? then acc.(fields := acc.fields[f.fieldName := c.value]) else acc)
  }

  function CompileAlternatives(e: Engine, denied: ReadDenied, fs: seq<UserFilter>): (r: Compiled<seq<Match>>)
    ensures r.Done? ==> |r.value| == |fs|
    decreases fs, 1
  {
    if fs == [] then Done([])
    else
      match CompileOne(e, denied, EMPTY, fs[0])
      case Done(first) =>
        var rest := CompileAlternatives(e, denied, fs[1..]);
        if rest.Done? then Done([first] + rest.value) else rest
      case FieldNameMissing => FieldNameMissing
      case PatternRefused => PatternRefused
  }

  function Compile(e: Engine, denied: ReadDenied, fs: seq<UserFilter>): Compiled<Match>
    decreases |fs|
  {
    if fs == [] then Done(EMPTY)
    else
      var acc := Compile(e, denied, fs[..|fs| - 1]);
      if acc.Done? then CompileOne(e, denied, acc.value, fs[|fs| - 1]) else acc
  }

  // ---------------------------------------------------------------------------------------------
  // Meaning of the filters
  // ---------------------------------------------------------------------------------------------

  /** What a LIKE pattern says about a text.  If syntax of regular expressions gets into a bracket group that
      opens with a closing bracket, that is what the platform makes of it. */
  ghost predicate TextMeans(e: Engine, p: string, s: string) {
    if Covered(p) then LikeOver(e.fold, Visible, p, s) else RegExpTest(e, Convert(p), s)
  }

  ghost predicate FieldMeans(e: Engine, op: Operator, x: Value) {
    match op
    case Eq(v) => x == v
    case Ne(v) => x != v
    case Gt(v) => Below(v, x)
    case Lt(v) => Below(x, v)
    case Ge(v) => Below(v, x) || x == v
    case Le(v) => Below(x, v) || x == v
    case In(vs) => exists i :: 0 <= i < |vs| && vs[i] == x
    case NotIn(vs) => forall i :: 0 <= i < |vs| ==> vs[i] != x
    case LikeText(p) => x.Str? && TextMeans(e, p, x.s)
    case NotLike(p) => x.Str? ==> !TextMeans(e, p, x.s)
    case IsNull => x.Null?
    case IsNotNull => !x.Null?
    case Or => true
    case Unset => true
  }

  /** A filter on a read-denied field demands nothing, also as an alternative of an OR. */
  ghost predicate Means(e: Engine, denied: ReadDenied, f: UserFilter, doc: Document) {
    if Skipped(denied, f) then true
    else if IsOr(f) then exists i :: 0 <= i < |f.orFilters.list| && Means(e, denied, f.orFilters.list[i], doc)
    else FieldMeans(e, f.op, Get(doc, f.fieldName))
  }

  predicate Throws(e: Engine, denied: ReadDenied, f: UserFilter) {
    && !Skipped(denied, f)
    && if IsOr(f) then exists i :: 0 <= i < |f.orFilters.list| && Throws(e, denied, f.orFilters.list[i])
       else f.fieldName == "" || RefusedPattern(e, f.op)
  }

  // ---------------------------------------------------------------------------------------------
  // Which filters of a list take effect
  // ---------------------------------------------------------------------------------------------

  predicate IsField(f: UserFilter) {
    !IsOr(f) && ConditionOf(f.op).Some?
  }

  predicate Active(denied: ReadDenied, f: UserFilter) {
    !Skipped(denied, f) && (IsOr(f) || IsField(f))
  }

  /** A later filter displaces an earlier one when it is an OR or has the same field. */
  predicate Displaces(denied: ReadDenied, later: UserFilter, earlier: UserFilter) {
    Active(denied, later) && (IsOr(later) || (IsField(earlier) && later.fieldName == earlier.fieldName))
  }

  predicate Live(denied: ReadDenied, fs: seq<UserFilter>, i: nat)
    requires i < |fs|
  {
    Active(denied, fs[i]) && forall j :: i < j < |fs| ==> !Displaces(denied, fs[j], fs[i])
  }

  lemma {:induction false} AlternativesByIndex(e: Engine, denied: ReadDenied, fs: seq<UserFilter>)
    ensures CompileAlternatives(e, denied, fs).Done? <==>
            forall i :: 0 <= i < |fs| ==> CompileOne(e, denied, EMPTY, fs[i]).Done?
    ensures CompileAlternatives(e, denied, fs).Done? ==>
              forall i :: 0 <= i < |fs| ==>
                CompileAlternatives(e, denied, fs).value[i] == CompileOne(e, denied, EMPTY, fs[i]).value
    decreases |fs|
  {
    if fs == [] {
    } else {
      var tail := fs[1..];
      AlternativesByIndex(e, denied, tail);
      if CompileAlternatives(e, denied, fs).Done? {
        forall i | 0 <= i < |fs|
          ensures CompileOne(e, denied, EMPTY, fs[i]) == Done(CompileAlternatives(e, denied, fs).value[i])
        {
          if i > 0 { assert fs[i] == tail[i - 1]; }
        }
      } else if CompileOne(e, denied, EMPTY, fs[0]).Done? {
        var i :| 0 <= i < |tail| && !CompileOne(e, denied, EMPTY, tail[i]).Done?;
        assert fs[i + 1] == tail[i];
      }
    }
  }

  /** The match expression holds the condition of this filter. */
  ghost predicate ConditionsOf(e: Engine, denied: ReadDenied, f: UserFilter, m: Match) {
    && (IsField(f) ==>
          f.fieldName in m.fields && m.fields[f.fieldName] == ConditionOf(f.op).value && !RefusedPattern(e, f.op))
    && (IsOr(f) ==> CompileAlternatives(e, denied, f.orFilters.list).Done? &&
                    m.ors == SomeOf(CompileAlternatives(e, denied, f.orFilters.list).value))
  }

  /** It holds the conditions of the live filters and no others. */
  ghost predicate HoldsLive(e: Engine, denied: ReadDenied, fs: seq<UserFilter>, m: Match) {
    && (forall k :: k in m.fields ==>
          exists i :: 0 <= i < |fs| && Live(denied, fs, i) && IsField(fs[i]) && fs[i].fieldName == k)
    && (m.ors.SomeOf? ==> exists i :: 0 <= i < |fs| && Live(denied, fs, i) && IsOr(fs[i]))
    && (forall i :: 0 <= i < |fs| && Live(denied, fs, i) ==> ConditionsOf(e, denied, fs[i], m))
  }

  lemma LiveAfterAppend(denied: ReadDenied, fs: seq<UserFilter>, f: UserFilter, i: nat)
    requires i <= |fs|
    ensures Live(denied, fs + [f], i) <==>
            if i == |fs| then Active(denied, f) else Live(denied, fs, i) && !Displaces(denied, f, fs[i])
  {
    var gs := fs + [f];
    assert gs[|fs|] == f;
    assert forall j :: 0 <= j < |fs| ==> gs[j] == fs[j];
  }

  lemma StepHoldsLive(e: Engine, denied: ReadDenied, fs: seq<UserFilter>, f: UserFilter, acc: Match, m: Match)
    requires HoldsLive(e, denied, fs, acc) && CompileOne(e, denied, acc, f) == Done(m)
    ensures HoldsLive(e, denied, fs + [f], m)
  {
    StepKeysLive(e, denied, fs, f, acc, m);
    forall i | 0 <= i <= |fs| && Live(denied, fs + [f], i)
      ensures ConditionsOf(e, denied, (fs + [f])[i], m)
    {
      StepKeepsConditions(e, denied, fs, f, acc, m, i);
    }
  }

  lemma StepKeepsConditions(e: Engine, denied: ReadDenied, fs: seq<UserFilter>, f: UserFilter, acc: Match, m: Match,
                            i: nat)
    requires HoldsLive(e, denied, fs, acc) && CompileOne(e, denied, acc, f) == Done(m)
    requires i <= |fs| && Live(denied, fs + [f], i)
    ensures ConditionsOf(e, denied, (fs + [f])[i], m)
  {
    LiveAfterAppend(denied, fs, f, i);
    if i < |fs| {
      assert ConditionsOf(e, denied, fs[i], acc);
    }
  }

  lemma StepKeysLive(e: Engine, denied: ReadDenied, fs: seq<UserFilter>, f: UserFilter, acc: Match, m: Match)
    requires HoldsLive(e, denied, fs, acc) && CompileOne(e, denied, acc, f) == Done(m)
    ensures forall k :: k in m.fields ==>
              exists i ::
                && 0 <= i <= |fs| && Live(denied, fs + [f], i)
                && IsField((fs + [f])[i]) && (fs + [f])[i].fieldName == k
    ensures m.ors.SomeOf? ==> exists i :: 0 <= i <= |fs| && Live(denied, fs + [f], i) && IsOr((fs + [f])[i])
  {
    var gs := fs + [f];
    var n := |fs|;
    LiveAfterAppend(denied, fs, f, n);
    forall k | k in m.fields
      ensures exists i :: 0 <= i <= n && Live(denied, gs, i) && IsField(gs[i]) && gs[i].fieldName == k
    {
      if Active(denied, f) && k == f.fieldName {
        assert Live(denied, gs, n);
      } else {
        var i :| 0 <= i < n && Live(denied, fs, i) && IsField(fs[i]) && fs[i].fieldName == k;
        LiveAfterAppend(denied, fs, f, i);
        assert Live(denied, gs, i) && gs[i] == fs[i];
      }
    }
    if m.ors.SomeOf? {
      if IsOr(f) && Active(denied, f) {
        assert Live(denied, gs, n);
      } else {
        var i :| 0 <= i < n && Live(denied, fs, i) && IsOr(fs[i]);
        LiveAfterAppend(denied, fs, f, i);
        assert Live(denied, gs, i) && gs[i] == fs[i];
      }
    }
  }

  lemma {:induction false} CompiledHoldsLive(e: Engine, denied: ReadDenied, fs: seq<UserFilter>)
    requires Compile(e, denied, fs).Done?
    ensures HoldsLive(e, denied, fs, Compile(e, denied, fs).value)
    decreases |fs|
  {
    if fs == [] {
    } else {
      var n := |fs| - 1;
      CompiledHoldsLive(e, denied, fs[..n]);
      StepHoldsLive(e, denied, fs[..n], fs[n], Compile(e, denied, fs[..n]).value, Compile(e, denied, fs).value);
      assert fs[..n] + [fs[n]] == fs;
    }
  }

  // ---------------------------------------------------------------------------------------------
  // The theorems
  // ---------------------------------------------------------------------------------------------

  lemma PatternMeans(e: Engine, p: string, s: string)
    requires !Refused(e, Convert(p))
    ensures RegExpTest(e, Convert(p), s) <==> TextMeans(e, p, s)
  {
    if Covered(p) {
      RefusedExactly(e, p);
      CoveredIsLikeOnVisibleText(e, p, s);
    }
  }

  /** For a pattern that keeps its meaning, it is that of LIKE with wildcards that do not cover line terminators. */
  lemma SoundPatternMeans(e: Engine, p: string, s: string)
    requires Sound(e.fold, p)
    ensures TextMeans(e, p, s) <==> LikeOver(e.fold, Visible, p, s)
  {
    RegExpIsLikeOnVisibleText(e, p, s);
  }

  lemma PlainConditionMeans(e: Engine, op: Operator, x: Value)
    requires ConditionOf(op).Some? && !op.LikeText? && !op.NotLike?
    ensures ConditionHolds(e, ConditionOf(op).value, x) <==> FieldMeans(e, op, x)
  {
  }

  lemma PatternConditionMeans(e: Engine, src: string, p: string, x: Value)
    requires x.Str? ==> (RegExpTest(e, src, x.s) <==> TextMeans(e, p, x.s))
    ensures ConditionHolds(e, Pattern(src), x) <==> FieldMeans(e, LikeText(p), x)
    ensures ConditionHolds(e, NotPattern(src), x) <==> FieldMeans(e, NotLike(p), x)
  {
  }

  lemma ConditionMeans(e: Engine, op: Operator, x: Value)
    requires ConditionOf(op).Some? && !RefusedPattern(e, op)
    ensures ConditionHolds(e, ConditionOf(op).value, x) <==> FieldMeans(e, op, x)
  {
    if op.LikeText? || op.NotLike? {
      if x.Str? {
        PatternMeans(e, op.pattern, x.s);
      }
      PatternConditionMeans(e, Convert(op.pattern), op.pattern, x);
    } else {
      PlainConditionMeans(e, op, x);
    }
  }

  /** A filter compiled alone accepts exactly the documents it means, through OR trees of any depth. */
  lemma {:induction false} SingleFilterMeans(e: Engine, denied: ReadDenied, f: UserFilter, doc: Document)
    requires CompileOne(e, denied, EMPTY, f).Done?
    ensures Accepts(e, CompileOne(e, denied, EMPTY, f).value, doc) <==> Means(e, denied, f, doc)
    decreases f
  {
    var m := CompileOne(e, denied, EMPTY, f).value;
    if !Skipped(denied, f) {
      if IsOr(f) {
        var alts := f.orFilters.list;
        AlternativesByIndex(e, denied, alts);
        forall i | 0 <= i < |alts| ensures Accepts(e, m.ors.list[i], doc) <==> Means(e, denied, alts[i], doc) {
          SingleFilterMeans(e, denied, alts[i], doc);
        }
      } else if ConditionOf(f.op).Some? {
        ConditionMeans(e, f.op, Get(doc, f.fieldName));
        assert f.fieldName in m.fields;
      }
    }
  }

  lemma LiveFilterMeans(e: Engine, denied: ReadDenied, fs: seq<UserFilter>, i: nat, m: Match, doc: Document)
    requires HoldsLive(e, denied, fs, m) && i < |fs| && Live(denied, fs, i)
    ensures Means(e, denied, fs[i], doc) <==>
            if IsOr(fs[i]) then m.ors.SomeOf? && exists k :: 0 <= k < |m.ors.list| && Accepts(e, m.ors.list[k], doc)
            else fs[i].fieldName in m.fields && ConditionHolds(e, m.fields[fs[i].fieldName], Get(doc, fs[i].fieldName))
  {
    if IsOr(fs[i]) {
      var alts := fs[i].orFilters.list;
      AlternativesByIndex(e, denied, alts);
      forall k | 0 <= k < |alts| ensures Accepts(e, m.ors.list[k], doc) <==> Means(e, denied, alts[k], doc) {
        SingleFilterMeans(e, denied, alts[k], doc);
      }
    } else {
      ConditionMeans(e, fs[i].op, Get(doc, fs[i].fieldName));
    }
  }

  /** What any list of filters compiles to: a document is accepted exactly when every filter that no
      later one displaces is satisfied. */
  lemma CompiledMeansLiveFilters(e: Engine, denied: ReadDenied, fs: seq<UserFilter>, doc: Document)
    requires Compile(e, denied, fs).Done?
    ensures Accepts(e, Compile(e, denied, fs).value, doc) <==>
            forall i :: 0 <= i < |fs| && Live(denied, fs, i) ==> Means(e, denied, fs[i], doc)
  {
    var m := Compile(e, denied, fs).value;
    CompiledHoldsLive(e, denied, fs);
    if Accepts(e, m, doc) {
      forall i | 0 <= i < |fs| && Live(denied, fs, i) ensures Means(e, denied, fs[i], doc) {
        LiveFilterMeans(e, denied, fs, i, m, doc);
      }
    }
    if forall i :: 0 <= i < |fs| && Live(denied, fs, i) ==> Means(e, denied, fs[i], doc) {
      forall k | k in m.fields ensures ConditionHolds(e, m.fields[k], Get(doc, k)) {
        var i :| 0 <= i < |fs| && Live(denied, fs, i) && IsField(fs[i]) && fs[i].fieldName == k;
        LiveFilterMeans(e, denied, fs, i, m, doc);
      }
      if m.ors.SomeOf? {
        var i :| 0 <= i < |fs| && Live(denied, fs, i) && IsOr(fs[i]);
        LiveFilterMeans(e, denied, fs, i, m, doc);
      }
    }
  }

  /** The side conditions of a conjunction: different fields, and an OR only in front. */
  predicate NothingDisplaced(denied: ReadDenied, fs: seq<UserFilter>) {
    forall i, j :: 0 <= i < j < |fs| && Active(denied, fs[i]) ==> !Displaces(denied, fs[j], fs[i])
  }

  /** Under them the list means the conjunction of its filters. */
  lemma CompiledMeansAllFilters(e: Engine, denied: ReadDenied, fs: seq<UserFilter>, doc: Document)
    requires Compile(e, denied, fs).Done?
    requires NothingDisplaced(denied, fs)
    ensures Accepts(e, Compile(e, denied, fs).value, doc) <==>
            forall i :: 0 <= i < |fs| ==> Means(e, denied, fs[i], doc)
  {
    CompiledMeansLiveFilters(e, denied, fs, doc);
    forall i | 0 <= i < |fs| ensures Live(denied, fs, i) || Means(e, denied, fs[i], doc) {
    }
  }

  /** The same paths, fields and kinds of filters at the same places; values, patterns and alternatives
      may differ. */
  predicate SameShape(fs: seq<UserFilter>, gs: seq<UserFilter>) {
    |gs| == |fs| && forall i :: 0 <= i < |fs| ==> SameKind(fs[i], gs[i])
  }

  predicate SameKind(f: UserFilter, g: UserFilter) {
    && g.subEntityPath == f.subEntityPath && g.fieldName == f.fieldName && (IsOr(g) <==> IsOr(f))
    && (IsField(g) <==> IsField(f))
  }

  /** What the validation of arguments lets through: an OR has at least two alternatives, each of them
      with a field name and without a path or alternatives of its own. */
  predicate Receivable(f: UserFilter) {
    f.orFilters.AnyOf? ==>
      && |f.orFilters.list| >= 2
      && forall i :: 0 <= i < |f.orFilters.list| ==> PlainAlternative(f.orFilters.list[i])
  }

  predicate PlainAlternative(f: UserFilter) {
    f.subEntityPath == "" && f.fieldName != "" && f.orFilters.NoFilters?
  }

  ghost predicate KeepsConjunction(e: Engine, denied: ReadDenied, gs: seq<UserFilter>)
    requires Compile(e, denied, gs).Done?
  {
    forall doc: Document ::
      Accepts(e, Compile(e, denied, gs).value, doc) <==>
      forall i :: 0 <= i < |gs| ==> Means(e, denied, gs[i], doc)
  }

  ghost predicate Usable(e: Engine, denied: ReadDenied, gs: seq<UserFilter>) {
    Compile(e, denied, gs).Done? && forall i :: 0 <= i < |gs| ==> Receivable(gs[i])
  }

  /** A filter of the same kind as f that a document without fields satisfies or fails, as told. */
  function Pick(f: UserFilter, satisfied: bool): UserFilter {
    var op := if satisfied then IsNull else IsNotNull;
    var alternative := UserFilter("", "a", op, NoFilters);
    if IsOr(f) then f.(orFilters := AnyOf([alternative, alternative]))
    else if IsField(f) then f.(op := op, orFilters := NoFilters)
    else f.(orFilters := NoFilters)
  }

  lemma PickedMeans(e: Engine, denied: ReadDenied, f: UserFilter, satisfied: bool)
    requires !Throws(e, denied, f)
    ensures var g := Pick(f, satisfied);
            SameKind(f, g) && Receivable(g) && !Throws(e, denied, g) &&
            (Means(e, denied, g, map[]) <==> satisfied || !Active(denied, f))
  {
    if IsOr(f) {
      PickedOrMeans(e, denied, f, satisfied);
    }
  }

  lemma PickedOrMeans(e: Engine, denied: ReadDenied, f: UserFilter, satisfied: bool)
    requires IsOr(f)
    ensures var g := Pick(f, satisfied);
            SameKind(f, g) && Receivable(g) && !Throws(e, denied, g) &&
            (Means(e, denied, g, map[]) <==> satisfied || Skipped(denied, f))
  {
    var g := Pick(f, satisfied);
    var alternative := g.orFilters.list[0];
    assert Means(e, denied, alternative, map[]) <==> satisfied;
    assert g.orFilters.list[1] == alternative;
  }

  function PickAll(fs: seq<UserFilter>, failing: nat): (gs: seq<UserFilter>)
    ensures |gs| == |fs| && forall i :: 0 <= i < |fs| ==> gs[i] == Pick(fs[i], i != failing)
  {
    seq(|fs|, i requires 0 <= i < |fs| => Pick(fs[i], i != failing))
  }

  lemma ShapeDecidesDisplacement(denied: ReadDenied, fs: seq<UserFilter>, gs: seq<UserFilter>)
    requires SameShape(fs, gs)
    ensures NothingDisplaced(denied, gs) <==> NothingDisplaced(denied, fs)
    ensures forall i :: 0 <= i < |fs| ==> (Live(denied, gs, i) <==> Live(denied, fs, i))
  {
    forall i | 0 <= i < |fs|
      ensures Active(denied, gs[i]) <==> Active(denied, fs[i])
      ensures forall j :: 0 <= j < |fs| ==> (Displaces(denied, gs[j], gs[i]) <==> Displaces(denied, fs[j], fs[i]))
    {
      assert SameKind(fs[i], gs[i]);
    }
  }

  lemma PickedAreUsable(e: Engine, denied: ReadDenied, fs: seq<UserFilter>, i: nat)
    requires Compile(e, denied, fs).Done?
    ensures var gs := PickAll(fs, i);
            SameShape(fs, gs) && Usable(e, denied, gs) &&
            forall k :: 0 <= k < |fs| ==> (Means(e, denied, gs[k], map[]) <==> k != i || !Active(denied, fs[k]))
  {
    var gs := PickAll(fs, i);
    CompileDone(e, denied, fs);
    forall k | 0 <= k < |fs|
      ensures SameKind(fs[k], gs[k]) && Receivable(gs[k]) && !Throws(e, denied, gs[k])
      ensures Means(e, denied, gs[k], map[]) <==> k != i || !Active(denied, fs[k])
    {
      PickedMeans(e, denied, fs[k], k != i);
    }
    CompileDone(e, denied, gs);
  }

  lemma OnlyDisplacedFails(e: Engine, denied: ReadDenied, gs: seq<UserFilter>, i: nat, doc: Document)
    requires Usable(e, denied, gs) && i < |gs| && !Live(denied, gs, i)
    requires forall k :: 0 <= k < |gs| ==> (Means(e, denied, gs[k], doc) <==> k != i)
    ensures !KeepsConjunction(e, denied, gs)
  {
    CompiledMeansLiveFilters(e, denied, gs, doc);
    assert !Means(e, denied, gs[i], doc) && Accepts(e, Compile(e, denied, gs).value, doc);
  }

  /** If filter i is displaced, filters of the same shape do not mean their conjunction. */
  lemma DisplacedFilterIsLost(e: Engine, denied: ReadDenied, fs: seq<UserFilter>, i: nat, j: nat)
    requires Compile(e, denied, fs).Done? && i < j < |fs| && Active(denied, fs[i]) && Displaces(denied, fs[j], fs[i])
    ensures var gs := PickAll(fs, i);
            SameShape(fs, gs) && Usable(e, denied, gs) && !KeepsConjunction(e, denied, gs)
  {
    var gs := PickAll(fs, i);
    PickedAreUsable(e, denied, fs, i);
    ShapeDecidesDisplacement(denied, fs, gs);
    assert !Live(denied, fs, i);
    OnlyDisplacedFails(e, denied, gs, i, map[]);
  }

  /** The side conditions are exact: nothing is displaced if and only if all lists of the same shape that
      pass validation mean the conjunction of their filters. */
  lemma ConjunctionExactlyIfNothingDisplaced(e: Engine, denied: ReadDenied, fs: seq<UserFilter>)
    requires Compile(e, denied, fs).Done?
    ensures NothingDisplaced(denied, fs) <==>
            forall gs :: SameShape(fs, gs) && Usable(e, denied, gs) ==> KeepsConjunction(e, denied, gs)
  {
    if NothingDisplaced(denied, fs) {
      forall gs | SameShape(fs, gs) && Usable(e, denied, gs)
        ensures KeepsConjunction(e, denied, gs)
      {
        ShapeDecidesDisplacement(denied, fs, gs);
        forall doc: Document
          ensures Accepts(e, Compile(e, denied, gs).value, doc) <==>
                  forall i :: 0 <= i < |gs| ==> Means(e, denied, gs[i], doc)
        {
          CompiledMeansAllFilters(e, denied, gs, doc);
        }
      }
    } else {
      var i, j :| 0 <= i < j < |fs| && Active(denied, fs[i]) && Displaces(denied, fs[j], fs[i]);
      DisplacedFilterIsLost(e, denied, fs, i, j);
    }
  }

  /** An OR filter forgets everything before it. */
  lemma OrForgetsEarlierFilters(e: Engine, denied: ReadDenied, fs: seq<UserFilter>, f: UserFilter)
    requires IsOr(f) && !Skipped(denied, f) && Compile(e, denied, fs).Done?
    ensures Compile(e, denied, fs + [f]) == CompileOne(e, denied, EMPTY, f)
  {
    assert (fs + [f])[..|fs|] == fs;
  }

  function Adult(): UserFilter {
    UserFilter("", "years", Ge(Num(18)), NoFilters)
  }

  function Alternative(field: string): UserFilter {
    UserFilter("", field, Eq(Num(1)), NoFilters)
  }

  function EitherOf(a: string, b: string): UserFilter {
    UserFilter("", "", Or, AnyOf([Alternative(a), Alternative(b)]))
  }

  lemma EitherAccepts(e: Engine, denied: ReadDenied, doc: Document)
    requires Get(doc, "a") == Num(1)
    ensures var f := EitherOf("a", "b");
            CompileOne(e, denied, EMPTY, f).Done? && Accepts(e, CompileOne(e, denied, EMPTY, f).value, doc)
  {
    var f := EitherOf("a", "b");
    OneDone(e, denied, EMPTY, f);
    assert f.orFilters.list[0] == Alternative("a") && Means(e, denied, f.orFilters.list[0], doc);
    SingleFilterMeans(e, denied, f, doc);
  }

  /** So the list is not the conjunction of its filters without the side conditions. */
  lemma LaterOrDropsFilter(e: Engine, denied: ReadDenied)
    ensures var fs, doc: Document := [Adult()] + [EitherOf("a", "b")], map["years" := Num(7), "a" := Num(1)];
            && Receivable(fs[0]) && Receivable(fs[1]) && Compile(e, denied, fs).Done?
            && Accepts(e, Compile(e, denied, fs).value, doc) && !Means(e, denied, fs[0], doc)
  {
    CompileDone(e, denied, [Adult()]);
    OrForgetsEarlierFilters(e, denied, [Adult()], EitherOf("a", "b"));
    EitherAccepts(e, denied, map["years" := Num(7), "a" := Num(1)]);
  }

  lemma {:induction false} OneDone(e: Engine, denied: ReadDenied, acc: Match, f: UserFilter)
    ensures CompileOne(e, denied, acc, f).Done? <==> !Throws(e, denied, f)
    decreases f
  {
    if !Skipped(denied, f) && IsOr(f) {
      var alts := f.orFilters.list;
      AlternativesByIndex(e, denied, alts);
      forall i | 0 <= i < |alts| ensures CompileOne(e, denied, EMPTY, alts[i]).Done? <==> !Throws(e, denied, alts[i]) {
        OneDone(e, denied, EMPTY, alts[i]);
      }
    }
  }

  /** Compilation fails exactly when some filter that is not skipped lacks its field name or has a refused
      pattern, also one that a later OR would have dropped. */
  lemma {:induction false} CompileDone(e: Engine, denied: ReadDenied, fs: seq<UserFilter>)
    ensures Compile(e, denied, fs).Done? <==> forall i :: 0 <= i < |fs| ==> !Throws(e, denied, fs[i])
    decreases |fs|
  {
    if fs == [] {
    } else {
      var n := |fs| - 1;
      CompileDone(e, denied, fs[..n]);
      assert forall i :: 0 <= i < n ==> fs[..n][i] == fs[i];
      if Compile(e, denied, fs[..n]).Done? {
        OneDone(e, denied, Compile(e, denied, fs[..n]).value, fs[n]);
      }
    }
  }

  // ---------------------------------------------------------------------------------------------
  // What one more filter does
  // ---------------------------------------------------------------------------------------------

  /** One more filter of a field.  If reading the field of that sub-entity is denied, it changes nothing.
      Otherwise it is refused without a field name or with a refused pattern; or the documents accepted are
      those whose field satisfies the operator, a missing one counting as null, and that satisfy what there was
      but for conditions on that field. */
  lemma AppendedField(e: Engine, denied: ReadDenied, fs: seq<UserFilter>, f: UserFilter, doc: Document)
    requires Compile(e, denied, fs).Done? && !(f.op.Or? && f.orFilters.AnyOf?)
    ensures var before, after := Compile(e, denied, fs).value, Compile(e, denied, fs + [f]);
            if f.subEntityPath != "" && f.subEntityPath != "*" && f.fieldName != ""
               && denied(f.subEntityPath, f.fieldName)
            then after == Done(before)
            else if f.fieldName == "" then after == FieldNameMissing
            else if (f.op.LikeText? || f.op.NotLike?) && Refused(e, Convert(f.op.pattern)) then after == PatternRefused
            else if f.op.Or? || f.op.Unset? then after == Done(before)
            else
              && after.Done?
              && (Accepts(e, after.value, doc) <==>
                  && FieldMeans(e, f.op, if f.fieldName in doc then doc[f.fieldName] else Null)
                  && Accepts(e, Match(before.fields - {f.fieldName}, before.ors), doc))
  {
    var before, after := Compile(e, denied, fs).value, Compile(e, denied, fs + [f]);
    assert (fs + [f])[..|fs|] == fs;
    if after.Done? && !Skipped(denied, f) && ConditionOf(f.op).Some? {
      ConditionMeans(e, f.op, Get(doc, f.fieldName));
      PutAccepts(e, before, f.fieldName, ConditionOf(f.op).value, doc);
    }
  }

  lemma PutAccepts(e: Engine, m: Match, field: string, c: Condition, doc: Document)
    ensures Accepts(e, m.(fields := m.fields[field := c]), doc) <==>
            ConditionHolds(e, c, Get(doc, field)) && Accepts(e, Match(m.fields - {field}, m.ors), doc)
  {
    var put, kept := m.fields[field := c], m.fields - {field};
    assert put[field] == c;
    assert forall k :: k in kept ==> k in put && put[k] == kept[k];
    assert forall k :: k in put ==> k == field || k in kept;
  }

  /** One more OR whose path is not denied.  The documents accepted are those that some alternative, compiled
      alone, accepts, whatever there was. */
  lemma AppendedOr(e: Engine, denied: ReadDenied, fs: seq<UserFilter>, f: UserFilter, doc: Document)
    requires Compile(e, denied, fs).Done? && f.op.Or? && f.orFilters.AnyOf?
    ensures var before, after := Compile(e, denied, fs).value, Compile(e, denied, fs + [f]);
            var alts := f.orFilters.list;
            if f.subEntityPath != "" && f.subEntityPath != "*" && f.fieldName != ""
               && denied(f.subEntityPath, f.fieldName)
            then after == Done(before)
            else
              && (after.Done? <==> forall i :: 0 <= i < |alts| ==> Compile(e, denied, [alts[i]]).Done?)
              && (after.Done? ==>
                    (Accepts(e, after.value, doc) <==>
                     exists i :: 0 <= i < |alts| && Accepts(e, Compile(e, denied, [alts[i]]).value, doc)))
  {
    var alts := f.orFilters.list;
    assert (fs + [f])[..|fs|] == fs;
    forall i | 0 <= i < |alts|
      ensures Compile(e, denied, [alts[i]]) == CompileOne(e, denied, EMPTY, alts[i])
    {
      assert [alts[i]][..0] == [];
    }
    AlternativesByIndex(e, denied, alts);
  }

  /** The comparisons, on numbers. */
  lemma ComparisonsOfNumbers(e: Engine, x: int, y: int)
    ensures FieldMeans(e, Gt(Num(y)), Num(x)) <==> x > y
    ensures FieldMeans(e, Ge(Num(y)), Num(x)) <==> x >= y
    ensures FieldMeans(e, Lt(Num(y)), Num(x)) <==> x < y
    ensures FieldMeans(e, Le(Num(y)), Num(x)) <==> x <= y
  {
  }

  /** False comes before true. */
  lemma ComparisonsOfBooleans(e: Engine, x: bool, y: bool)
    ensures FieldMeans(e, Lt(Bool(y)), Bool(x)) <==> x == false && y == true
    ensures FieldMeans(e, Gt(Bool(y)), Bool(x)) <==> x == true && y == false
  {
  }

  /** The comparisons, on texts, are those of the first characters that differ. */
  lemma {:induction false} ComparisonsOfTexts(e: Engine, s: string, t: string, k: nat)
    requires k <= |s| && k <= |t| && s[..k] == t[..k]
    requires (k < |s| && k < |t| && s[k] != t[k]) || (k == |s| < |t|) || (k == |t| < |s|)
    ensures FieldMeans(e, Lt(Str(t)), Str(s)) <==> k == |s| || (k < |t| && s[k] < t[k])
    ensures FieldMeans(e, Gt(Str(t)), Str(s)) <==> k == |t| || (k < |s| && s[k] > t[k])
    decreases k
  {
    if k == 0 {
    } else {
      assert s[0] == s[..k][0] && t[0] == t[..k][0];
      assert s[1..][..k - 1] == s[..k][1..] && t[1..][..k - 1] == t[..k][1..];
      ComparisonsOfTexts(e, s[1..], t[1..], k - 1);
    }
  }

  predicate SameType(v: Value, x: Value) {
    v.Num? == x.Num? && v.Str? == x.Str? && v.Bool? == x.Bool?
  }

  /** Values of different types are never ordered. */
  lemma DifferentTypesAreNotOrdered(e: Engine, v: Value, x: Value)
    requires !SameType(v, x)
    ensures !FieldMeans(e, Gt(v), x) && !FieldMeans(e, Lt(v), x) && !FieldMeans(e, Ge(v), x) && !FieldMeans(e, Le(v), x)
  {
  }

  /** What is denied, by the class that the path leads to and the properties of classes that must not be read. */
  ghost function DeniedBy(g: SubEntityClass.Types, cls: string, rank: string -> nat,
                          readDenied: (string, string) -> bool): ReadDenied
    requires cls in g.properties && SubEntityClass.Walkable(g, rank)
  {
    (path: string, field: string) =>
      var c := SubEntityClass.FindSubEntityClass(g, path, cls, "", rank);
      c.Some? && readDenied(c.value, field)
  }

  /** The search for the class ends, and names of properties have no dots. */
  ghost predicate Searchable(g: SubEntityClass.Types, cls: string, rank: string -> nat) {
    && cls in g.properties && SubEntityClass.Walkable(g, rank)
    && forall name :: SubEntityClass.IsName(g, name) ==> SubEntityClass.Identifier(name)
  }

  /** Property i has the name, and no two properties have the same. */
  predicate DeclaresOnce(properties: seq<SubEntityClass.Property>, i: nat, name: string) {
    && i < |properties| && properties[i].name == name
    && forall j, k :: 0 <= j < k < |properties| ==> properties[j].name != properties[k].name
  }

  /** A filter on a property of a sub-entity of the entity itself is left out if and only if reading that
      property of the sub-entity's class is denied. */
  lemma SubEntityFilterIsSkippedExactly(g: SubEntityClass.Types, cls: string, rank: string -> nat,
                                        readDenied: (string, string) -> bool, f: UserFilter, i: nat)
    requires Searchable(g, cls, rank) && f.fieldName != ""
    requires DeclaresOnce(g.properties[cls], i, f.subEntityPath) && g.properties[cls][i].baseType in g.properties
    ensures Skipped(DeniedBy(g, cls, rank, readDenied), f) <==> readDenied(g.properties[cls][i].baseType, f.fieldName)
  {
    var all := g.properties[cls];
    assert SubEntityClass.IsName(g, all[i].name);
    SubEntityClass.OneNameExactly(g, f.subEntityPath, cls, rank, all[i].baseType);
  }

  /** For the path of the entity itself, and for all paths, asking for the class would change nothing. */
  lemma NothingDeniedAtRoot(g: SubEntityClass.Types, cls: string, rank: string -> nat,
                            readDenied: (string, string) -> bool, f: UserFilter)
    requires Searchable(g, cls, rank)
    ensures Skipped(DeniedBy(g, cls, rank, readDenied), f) <==>
            f.fieldName != "" && DeniedBy(g, cls, rank, readDenied)(f.subEntityPath, f.fieldName)
  {
    if f.subEntityPath == "" || f.subEntityPath == "*" {
      SubEntityClass.NoClassForRootOrDeepPaths(g, f.subEntityPath, cls, rank);
    }
  }

  /** Alternatives have no sub-entity path, so none of them is ever skipped. */
  lemma AlternativesAreNotSkipped(denied: ReadDenied, f: UserFilter, i: nat)
    requires f.orFilters.AnyOf? && i < |f.orFilters.list| && Receivable(f)
    ensures !Skipped(denied, f.orFilters.list[i])
  {
  }

  /** A number that a list of values does not contain. */
  lemma {:induction false} FreshNumber(vs: seq<Value>) returns (n: int)
    ensures forall i, m :: 0 <= i < |vs| && m >= n ==> vs[i] != Num(m)
    decreases |vs|
  {
    if vs == [] {
      n := 0;
    } else {
      var v := vs[|vs| - 1];
      n := FreshNumber(vs[..|vs| - 1]);
      if v.Num? && v.n >= n {
        n := v.n + 1;
      }
    }
  }

  /** No value is refused by the operator. */
  ghost predicate RefusesNothing(e: Engine, op: Operator) {
    match op
    case NotIn(vs) => vs == []
    case NotLike(p) => forall s :: !TextMeans(e, p, s)
    case Or => true
    case Unset => true
    case _ => false
  }

  lemma RefusesNothingExactly(e: Engine, op: Operator)
    ensures RefusesNothing(e, op) <==> forall x :: FieldMeans(e, op, x)
  {
    match op
    case Eq(v) => assert !FieldMeans(e, op, if v == Null then Num(0) else Null);
    case Ne(v) => assert !FieldMeans(e, op, v);
    case Gt(v) => assert !FieldMeans(e, op, Null);
    case Lt(v) => assert !FieldMeans(e, op, Null);
    case Ge(v) => assert !FieldMeans(e, op, if v == Null then Num(0) else Null);
    case Le(v) => assert !FieldMeans(e, op, if v == Null then Num(0) else Null);
    case In(vs) =>
      var n := FreshNumber(vs);
      assert !FieldMeans(e, op, Num(n));
    case NotIn(vs) =>
      if vs != [] {
        assert !FieldMeans(e, op, vs[0]);
      }
    case LikeText(p) => assert !FieldMeans(e, op, Null);
    case NotLike(p) =>
      if s :| TextMeans(e, p, s) {
        assert !FieldMeans(e, op, Str(s));
      }
    case IsNull => assert !FieldMeans(e, op, Num(0));
    case IsNotNull => assert !FieldMeans(e, op, Null);
    case Or =>
    case Unset =>
  }

  /** Exactly the alternatives without an operator, with the operator OR, with NOT IN and an empty list,
      or with NOT LIKE and a pattern of no text accept every document; they make their OR accept all. */
  lemma OpenAlternativeExactly(e: Engine, denied: ReadDenied, f: UserFilter, i: nat)
    requires IsOr(f) && !Skipped(denied, f) && Receivable(f) && !Throws(e, denied, f) && i < |f.orFilters.list|
    ensures var alternative := f.orFilters.list[i];
            && CompileOne(e, denied, EMPTY, alternative).Done? && CompileOne(e, denied, EMPTY, f).Done?
            && (RefusesNothing(e, alternative.op) <==>
                forall doc: Document :: Accepts(e, CompileOne(e, denied, EMPTY, alternative).value, doc))
            && (RefusesNothing(e, alternative.op) ==>
                  forall doc: Document :: Accepts(e, CompileOne(e, denied, EMPTY, f).value, doc))
  {
    var alternative := f.orFilters.list[i];
    assert PlainAlternative(alternative) && !Throws(e, denied, alternative);
    OneDone(e, denied, EMPTY, alternative);
    OneDone(e, denied, EMPTY, f);
    RefusesNothingExactly(e, alternative.op);
    forall doc: Document
      ensures Accepts(e, CompileOne(e, denied, EMPTY, alternative).value, doc) <==>
              FieldMeans(e, alternative.op, Get(doc, alternative.fieldName))
      ensures FieldMeans(e, alternative.op, Get(doc, alternative.fieldName)) ==>
              Accepts(e, CompileOne(e, denied, EMPTY, f).value, doc)
    {
      SingleFilterMeans(e, denied, alternative, doc);
      SingleFilterMeans(e, denied, f, doc);
    }
    if x :| !FieldMeans(e, alternative.op, x) {
      var doc: Document := map[alternative.fieldName := x];
      assert Get(doc, alternative.fieldName) == x && !Accepts(e, CompileOne(e, denied, EMPTY, alternative).value, doc);
    }
  }

  /** An alternative compiles to an expression without conditions exactly if it has no operator or the
      operator OR. */
  lemma EmptyAlternativeExactly(e: Engine, denied: ReadDenied, f: UserFilter)
    requires PlainAlternative(f)
    ensures CompileOne(e, denied, EMPTY, f) == Done(EMPTY) <==> f.op.Unset? || f.op.Or?
  {
    if !f.op.Unset? && !f.op.Or? && !RefusedPattern(e, f.op) {
      assert f.fieldName in CompileOne(e, denied, EMPTY, f).value.fields;
    }
  }

  // ---------------------------------------------------------------------------------------------
  // Merging by spread
  // ---------------------------------------------------------------------------------------------

  function Spread(a: Match, b: Match): Match {
    Match(a.fields + b.fields, if b.ors.SomeOf? then b.ors else a.ors)
  }

  function MergeAll(queries: seq<Match>): Match {
    if queries == [] then EMPTY else Spread(MergeAll(queries[..|queries| - 1]), queries[|queries| - 1])
  }

  /** Of several expressions with conditions on a field those of the last one count. */
  lemma {:induction false} LastQueryWins(queries: seq<Match>, k: string, i: nat)
    requires i < |queries| && k in queries[i].fields && forall j :: i < j < |queries| ==> k !in queries[j].fields
    ensures k in MergeAll(queries).fields && MergeAll(queries).fields[k] == queries[i].fields[k]
    decreases |queries|
  {
    var n := |queries| - 1;
    if i < n {
      LastQueryWins(queries[..n], k, i);
    }
  }

  lemma {:induction false} LastAlternativesWin(queries: seq<Match>, i: nat)
    requires i < |queries| && queries[i].ors.SomeOf? && forall j :: i < j < |queries| ==> queries[j].ors.Unrestricted?
    ensures MergeAll(queries).ors == queries[i].ors
    decreases |queries|
  {
    var n := |queries| - 1;
    if i < n {
      LastAlternativesWin(queries[..n], i);
    }
  }

  /** And nothing else gets in. */
  lemma {:induction false} MergedComesFromQueries(queries: seq<Match>, k: string)
    ensures k in MergeAll(queries).fields ==> exists i :: 0 <= i < |queries| && k in queries[i].fields
    ensures MergeAll(queries).ors.SomeOf? ==> exists i :: 0 <= i < |queries| && queries[i].ors.SomeOf?
    decreases |queries|
  {
    if queries == [] {
    } else {
      var n := |queries| - 1;
      MergedComesFromQueries(queries[..n], k);
      if i :| 0 <= i < n && k in queries[..n][i].fields {
        assert k in queries[i].fields;
      }
      if i :| 0 <= i < n && queries[..n][i].ors.SomeOf? {
        assert queries[i].ors.SomeOf?;
      }
    }
  }

  predicate DisjointKeys(a: Match, b: Match) {
    a.fields.Keys !! b.fields.Keys && !(a.ors.SomeOf? && b.ors.SomeOf?)
  }

  /** Spreading one expression over another keeps what is not overwritten. */
  lemma SpreadAccepts(e: Engine, a: Match, b: Match, doc: Document)
    ensures Accepts(e, Spread(a, b), doc) <==>
            Accepts(e, b, doc) &&
            Accepts(e, Match(a.fields - b.fields.Keys, if b.ors.SomeOf? then Unrestricted else a.ors), doc)
  {
    var m, kept := Spread(a, b), a.fields - b.fields.Keys;
    assert forall k :: k in b.fields ==> m.fields[k] == b.fields[k];
    assert forall k :: k in kept ==> k in m.fields && m.fields[k] == kept[k];
    assert forall k :: k in m.fields ==> k in kept || k in b.fields;
  }

  lemma {:induction false} MergeStaysDisjoint(queries: seq<Match>, q: Match)
    requires forall i :: 0 <= i < |queries| ==> DisjointKeys(queries[i], q)
    ensures DisjointKeys(MergeAll(queries), q)
    decreases |queries|
  {
    if queries == [] {
    } else {
      MergeStaysDisjoint(queries[..|queries| - 1], q);
    }
  }

  /** Over pairwise disjoint keys merging is conjunction. */
  lemma {:induction false} MergeIsConjunction(e: Engine, queries: seq<Match>, doc: Document)
    requires forall i, j :: 0 <= i < j < |queries| ==> DisjointKeys(queries[i], queries[j])
    ensures Accepts(e, MergeAll(queries), doc) <==> forall i :: 0 <= i < |queries| ==> Accepts(e, queries[i], doc)
    decreases |queries|
  {
    if queries == [] {
    } else {
      var n := |queries| - 1;
      var front, last := queries[..n], queries[n];
      MergeIsConjunction(e, front, doc);
      MergeStaysDisjoint(front, last);
      var a := MergeAll(front);
      SpreadAccepts(e, a, last, doc);
      assert a.fields - last.fields.Keys == a.fields;
      assert forall i :: 0 <= i < n ==> front[i] == queries[i];
    }
  }

  /** The whole query: user-defined filters spread under the MongoDB queries. */
  lemma QueryMeansEveryFilter(e: Engine, denied: ReadDenied, fs: seq<UserFilter>, queries: seq<Match>, doc: Document)
    requires Compile(e, denied, fs).Done? && NothingDisplaced(denied, fs)
    requires forall i, j :: 0 <= i < j < |queries| ==> DisjointKeys(queries[i], queries[j])
    requires forall i :: 0 <= i < |queries| ==> DisjointKeys(queries[i], Compile(e, denied, fs).value)
    ensures Accepts(e, Spread(Compile(e, denied, fs).value, MergeAll(queries)), doc) <==>
            (forall i :: 0 <= i < |fs| ==> Means(e, denied, fs[i], doc)) &&
            (forall i :: 0 <= i < |queries| ==> Accepts(e, queries[i], doc))
  {
    var a, b := Compile(e, denied, fs).value, MergeAll(queries);
    CompiledMeansAllFilters(e, denied, fs, doc);
    MergeIsConjunction(e, queries, doc);
    MergeStaysDisjoint(queries, a);
    SpreadAccepts(e, a, b, doc);
    assert a.fields - b.fields.Keys == a.fields;
  }
}
