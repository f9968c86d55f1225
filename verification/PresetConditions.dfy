/** Conditions of presets (cmCMakePresetsFile) and what they come to once the variables of
    the preset are expanded. */
module PresetConditions {
  import opened Wrappers
  import opened PresetText

  /** A condition; the null condition says that there is none, whatever is inherited. */
  datatype Condition =
    | NullCondition
    | Constant(value: bool)
    | Equals(lhs: string, rhs: string)
    | InList(text: string, list: seq<string>)
    | Matches(text: string, regex: string)
    | AnyAllOf(conditions: seq<Condition>, stop: bool)      // any when it stops at true
    | Not(sub: Condition)

  /** Whether an expression is found in a text, if it is an expression at all. */
  type Search = (string, string) -> Option<bool>

  /** A condition may have no answer, or be an error. */
  datatype Answer = Answered(answer: bool) | Unanswered | Invalid

  function Blocked(x: Expansion): Answer
    requires !x.Text?
  {
    if x.Ignored? then Unanswered else Invalid
  }

  function Given(valid: bool, result: Option<bool>): Answer {
    if !valid then Invalid else if result.None? then Unanswered else Answered(result.value)
  }

  function Width(cond: Condition): nat {
    if cond.AnyAllOf? then |cond.conditions| else 0
  }

  /** What a condition comes to under the values of the variables. */
  function Meaning(c: Context, env: Environment, find: Search, cond: Condition): Answer
    decreases cond, Width(cond) + 1
  {
    match cond
    case NullCondition => Answered(true)
    case Constant(value) => Answered(value)
    case Equals(lhs, rhs) =>
      var x, y := Expand(c, env, lhs), Expand(c, env, rhs);
      if !x.Text? then Blocked(x) else if !y.Text? then Blocked(y) else Answered(x.text == y.text)
    case InList(text, list) =>
      var x := Expand(c, env, text);
      if !x.Text? then Blocked(x) else Found(c, env, x.text, list)
    case Matches(text, regex) =>
      var x, y := Expand(c, env, text), Expand(c, env, regex);
      if !x.Text? then Blocked(x) else if !y.Text? then Blocked(y)
      else if find(y.text, x.text).None? then Invalid
      else Answered(find(y.text, x.text).value)
    case AnyAllOf(conditions, stop) => From(c, env, find, cond, 0)
    case Not(sub) =>
      var m := Meaning(c, env, find, sub);
      if m.Answered? then Answered(!m.answer) else m
  }

  /** The conditions from k on; the first without the answer !stop decides. */
  function From(c: Context, env: Environment, find: Search, cond: Condition, k: nat): Answer
    requires cond.AnyAllOf? && k <= |cond.conditions|
    decreases cond, |cond.conditions| - k
  {
    if k == |cond.conditions| then Answered(!cond.stop)
    else
      var m := Meaning(c, env, find, cond.conditions[k]);
      if m == Answered(!cond.stop) then From(c, env, find, cond, k + 1) else m
  }

  /** Whether a text is among those of a list, which are expanded until it is found. */
  function Found(c: Context, env: Environment, text: string, list: seq<string>): Answer {
    if list == [] then Answered(false)
    else
      var x := Expand(c, env, list[0]);
      if !x.Text? then Blocked(x) else if x.text == text then Answered(true) else Found(c, env, text, list[1..])
  }

  // ----- plain texts

  /** Without macros the texts of a condition are compared as they are written. */
  lemma PlainConditions(c: Context, env: Environment, find: Search, x: string, y: string, b: bool)
    requires '$' !in x && '$' !in y
    ensures Meaning(c, env, find, NullCondition) == Answered(true)
    ensures Meaning(c, env, find, Constant(b)) == Answered(b)
    ensures Meaning(c, env, find, Equals(x, y)) == Answered(x == y)
    ensures Meaning(c, env, find, InList(x, [y])) == Answered(x == y)
    ensures find(y, x) == Some(b) ==> Meaning(c, env, find, Matches(x, y)) == Answered(b)
    ensures find(y, x) == None ==> Meaning(c, env, find, Matches(x, y)) == Invalid
  {
    hide Expand;
    PlainText(c, env, x);
    PlainText(c, env, y);
    assert [y][1..] == [] && Found(c, env, x, []) == Answered(false);
    assert Found(c, env, x, [y]) == Answered(x == y);
  }

  // ----- any and all

  /** The first of the conditions to stop is k. */
  ghost predicate StopsAt(c: Context, env: Environment, find: Search, conditions: seq<Condition>, stop: bool, k: int) {
    && 0 <= k < |conditions| && Meaning(c, env, find, conditions[k]) != Answered(!stop)
    && forall j :: 0 <= j < k ==> Meaning(c, env, find, conditions[j]) == Answered(!stop)
  }

  lemma {:induction false} FromIs(c: Context, env: Environment, find: Search, conditions: seq<Condition>, stop: bool,
      k: nat, d: nat)
    requires StopsAt(c, env, find, conditions, stop, d) && k <= d
    ensures From(c, env, find, AnyAllOf(conditions, stop), k) == Meaning(c, env, find, conditions[d])
    decreases d - k
  {
    if k < d { FromIs(c, env, find, conditions, stop, k + 1, d); }
  }

  lemma {:induction false} FromNone(c: Context, env: Environment, find: Search, conditions: seq<Condition>, stop: bool,
      k: nat)
    requires k <= |conditions|
    requires forall j :: 0 <= j < |conditions| ==> Meaning(c, env, find, conditions[j]) == Answered(!stop)
    ensures From(c, env, find, AnyAllOf(conditions, stop), k) == Answered(!stop)
    decreases |conditions| - k
  {
    if k < |conditions| { FromNone(c, env, find, conditions, stop, k + 1); }
  }

  lemma {:induction false} FirstStop(c: Context, env: Environment, find: Search, conditions: seq<Condition>, stop: bool,
      n: nat) returns (k: nat)
    requires n < |conditions| && Meaning(c, env, find, conditions[n]) != Answered(!stop)
    ensures StopsAt(c, env, find, conditions, stop, k)
  {
    hide Meaning;
    if j :| 0 <= j < n && Meaning(c, env, find, conditions[j]) != Answered(!stop) {
      k := FirstStop(c, env, find, conditions, stop, j);
    } else {
      k := n;
    }
  }

  /** The first condition to stop decides, with its answer or without one; if none
      stops the answer is the other one. */
  lemma DecidedByFirst(c: Context, env: Environment, find: Search, conditions: seq<Condition>, stop: bool)
    ensures var m := Meaning(c, env, find, AnyAllOf(conditions, stop));
      && (m == Answered(!stop) <==>
          forall j :: 0 <= j < |conditions| ==> Meaning(c, env, find, conditions[j]) == Answered(!stop))
      && forall k :: StopsAt(c, env, find, conditions, stop, k) ==> m == Meaning(c, env, find, conditions[k])
  {
    if n: nat :| n < |conditions| && Meaning(c, env, find, conditions[n]) != Answered(!stop) {
      var k := FirstStop(c, env, find, conditions, stop, n);
      FromIs(c, env, find, conditions, stop, 0, k);
    } else {
      FromNone(c, env, find, conditions, stop, 0);
    }
    forall k | StopsAt(c, env, find, conditions, stop, k)
      ensures Meaning(c, env, find, AnyAllOf(conditions, stop)) == Meaning(c, env, find, conditions[k])
    {
      FromIs(c, env, find, conditions, stop, 0, k);
    }
  }

  function Negated(conditions: seq<Condition>): seq<Condition> {
    seq(|conditions|, i requires 0 <= i < |conditions| => Not(conditions[i]))
  }

  lemma {:induction false} NegatedFrom(c: Context, env: Environment, find: Search, conditions: seq<Condition>,
      stop: bool, k: nat)
    requires k <= |conditions|
    ensures var m := From(c, env, find, AnyAllOf(conditions, stop), k);
      From(c, env, find, AnyAllOf(Negated(conditions), !stop), k) ==
        if m.Answered? then Answered(!m.answer) else m
    decreases |conditions| - k
  {
    if k < |conditions| {
      NegatedFrom(c, env, find, conditions, stop, k + 1);
      assert Negated(conditions)[k] == Not(conditions[k]);
    }
  }

  /** Not any is all not, and the other way round, errors and all. */
  lemma NotAnyIsAllNot(c: Context, env: Environment, find: Search, conditions: seq<Condition>, stop: bool)
    ensures Meaning(c, env, find, Not(AnyAllOf(conditions, stop))) ==
      Meaning(c, env, find, AnyAllOf(Negated(conditions), !stop))
  {
    NegatedFrom(c, env, find, conditions, stop, 0);
  }

  // ----- lists

  function EachEquals(text: string, list: seq<string>): seq<Condition> {
    seq(|list|, i requires 0 <= i < |list| => Equals(text, list[i]))
  }

  lemma {:induction false} FoundFrom(c: Context, env: Environment, find: Search, text: string, list: seq<string>,
      k: nat)
    requires k <= |list| && Expand(c, env, text).Text?
    ensures From(c, env, find, AnyAllOf(EachEquals(text, list), true), k) ==
      Found(c, env, Expand(c, env, text).text, list[k..])
    decreases |list| - k
  {
    hide Expand;
    if k < |list| {
      FoundFrom(c, env, find, text, list, k + 1);
      assert list[k..][1..] == list[k + 1..];
      assert EachEquals(text, list)[k] == Equals(text, list[k]);
    }
  }

  /** Being in a list is being equal to any of it, except that a text which cannot be
      expanded is noticed even when the list is empty. */
  lemma InListIsAnyEqual(c: Context, env: Environment, find: Search, text: string, list: seq<string>)
    ensures Meaning(c, env, find, InList(text, list)) == Meaning(c, env, find, AnyAllOf(EachEquals(text, list), true))
      <==> list != [] || Expand(c, env, text).Text?
  {
    hide Expand;
    assert list[0..] == list;
    if Expand(c, env, text).Text? {
      FoundFrom(c, env, find, text, list, 0);
    } else {
      var any := AnyAllOf(EachEquals(text, list), true);
      assert Meaning(c, env, find, any) == From(c, env, find, any, 0);
      if list != [] {
        assert EachEquals(text, list)[0] == Equals(text, list[0]);
        assert Meaning(c, env, find, Equals(text, list[0])) == Blocked(Expand(c, env, text));
      }
    }
  }

  // ----- why there is no answer

  /** All texts that a condition may expand. */
  ghost function Texts(cond: Condition): set<string> {
    match cond
    case NullCondition => {}
    case Constant(_) => {}
    case Equals(lhs, rhs) => {lhs, rhs}
    case InList(text, list) => {text} + set t | t in list
    case Matches(text, regex) => {text, regex}
    case AnyAllOf(conditions, _) => set i: nat, t | i < |conditions| && t in Texts(conditions[i]) :: t
    case Not(sub) => Texts(sub)
  }

  ghost predicate HasMatches(cond: Condition) {
    match cond
    case Matches(_, _) => true
    case AnyAllOf(conditions, _) => exists i: nat :: i < |conditions| && HasMatches(conditions[i])
    case Not(sub) => HasMatches(sub)
    case _ => false
  }

  /** A condition without an answer has a text of a vendor; one in error has a text that
      is in error, or searches for an expression. */
  lemma {:induction false} NoAnswerBecause(c: Context, env: Environment, find: Search, cond: Condition)
    ensures Meaning(c, env, find, cond) == Unanswered ==>
      exists t :: t in Texts(cond) && Expand(c, env, t).Ignored?
    ensures Meaning(c, env, find, cond) == Invalid ==>
      HasMatches(cond) || exists t :: t in Texts(cond) && Expand(c, env, t).Failed?
    decreases cond
  {
    hide Expand;
    match cond
    case InList(text, list) =>
      if Expand(c, env, text).Text? { NotFoundBecause(c, env, Expand(c, env, text).text, list); }
    case AnyAllOf(conditions, stop) =>
      DecidedByFirst(c, env, find, conditions, stop);
      if !Meaning(c, env, find, cond).Answered? {
        var n: nat :| n < |conditions| && Meaning(c, env, find, conditions[n]) != Answered(!stop);
        var k := FirstStop(c, env, find, conditions, stop, n);
        NoAnswerBecause(c, env, find, conditions[k]);
        assert Texts(conditions[k]) <= Texts(cond);
      }
    case Not(sub) =>
      NoAnswerBecause(c, env, find, sub);
    case _ =>
  }

  lemma {:induction false} NotFoundBecause(c: Context, env: Environment, text: string, list: seq<string>)
    ensures Found(c, env, text, list) == Unanswered ==> exists t :: t in list && Expand(c, env, t).Ignored?
    ensures Found(c, env, text, list) == Invalid ==> exists t :: t in list && Expand(c, env, t).Failed?
  {
    hide Expand;
    if list != [] {
      NotFoundBecause(c, env, text, list[1..]);
      assert list[0] in list;
    }
  }

  /** What the condition of a preset comes to; without one the answer is yes. */
  function AnswerOf(c: Context, env: Environment, find: Search, condition: Option<Condition>): Answer {
    if condition.Some? then Meaning(c, env, find, condition.value) else Answered(true)
  }
}
