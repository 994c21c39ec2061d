/** Value-level specification of selective receive (lib/revactor/mailbox.rb)
    and of the scheduler's run queue (lib/revactor/scheduler.rb): the
    functions the imperative classes in module Actors are proved against,
    and the properties proved about them. */
module Selective {
  import opened Base
  import opened Values

  /** The block given to `when` or `after`.  Its code is opaque; `NoOp` is
      the `proc {}` that `after` uses when no block is given. */
  datatype Action = Block(id: nat) | NoOp

  /** One `(pattern, action)` entry of a Filter's ruleset. */
  datatype Rule = Rule(pattern: Pattern, action: Action)

  /** Position of the first rule, in declaration order, whose pattern
      `===` the message. */
  function FirstRule(rules: seq<Rule>, m: Value): (r: Option<nat>)
    ensures r.Some? ==> r.value < |rules| && Match(rules[r.value].pattern, m)
    ensures r.Some? ==> forall j :: 0 <= j < r.value ==> !Match(rules[j].pattern, m)
    ensures r.None? ==> forall j :: 0 <= j < |rules| ==> !Match(rules[j].pattern, m)
  {
    if rules == [] then None
    else if Match(rules[0].pattern, m) then Some(0)
    else match FirstRule(rules[1..], m)
      case None => None
      case Some(i) => Some(i + 1)
  }

  predicate Matches(rules: seq<Rule>, m: Value) {
    FirstRule(rules, m).Some?
  }

  /** Filter#match: the action of the first matching rule, or nil. */
  function MatchAction(rules: seq<Rule>, m: Value): (r: Option<Action>)
    ensures r.Some? <==> exists j :: 0 <= j < |rules| && Match(rules[j].pattern, m)
    ensures r.Some? ==> exists j :: 0 <= j < |rules| && Match(rules[j].pattern, m) &&
                          r.value == rules[j].action &&
                          forall i :: 0 <= i < j ==> !Match(rules[i].pattern, m)
  {
    match FirstRule(rules, m)
    case None => None
    case Some(i) => Some(rules[i].action)
  }

  /** Position of the first message at or after j that some rule matches. */
  function FirstMatchFrom(q: seq<Value>, j: nat, rules: seq<Rule>): (r: Option<nat>)
    requires j <= |q|
    ensures r.Some? ==> j <= r.value < |q| && Matches(rules, q[r.value])
    ensures r.Some? ==> forall k :: j <= k < r.value ==> !Matches(rules, q[k])
    ensures r.None? ==> forall k :: j <= k < |q| ==> !Matches(rules, q[k])
    decreases |q| - j
  {
    if j == |q| then None
    else if Matches(rules, q[j]) then Some(j)
    else FirstMatchFrom(q, j + 1, rules)
  }

  /** A match found by one scan pass: the position of the matching message,
      the `matched_index` the code computes, and the winning action. */
  datatype Hit = Hit(position: nat, index: nat, action: Action)

  /** The result of one scan pass: the new `processed_upto` and the hit. */
  datatype Scan = Scan(processed: nat, hit: Option<Hit>)

  /** One pass of the `each_with_index` loop over `@queue[processed_upto..]`
      as written: every skipped message bumps `processed_upto`, and on a hit
      `matched_index = processed_upto + index` adds the slice index again. */
  function ScanPass(q: seq<Value>, p0: nat, rules: seq<Rule>): (s: Scan)
    requires p0 <= |q|
    ensures p0 <= s.processed <= |q|
    ensures s.hit.None? <==> FirstMatchFrom(q, p0, rules).None?
    ensures s.hit.Some? ==> s.processed == s.hit.value.position
  {
    match FirstMatchFrom(q, p0, rules)
    case None => Scan(|q|, None)
    case Some(k) =>
      Scan(k, Some(Hit(k, k + (k - p0), rules[FirstRule(rules, q[k]).value].action)))
  }

  /** Array#delete_at: removes and returns the element at i, or returns nil
      and leaves the array alone when i is past the end. */
  function DeleteAt(q: seq<Value>, i: nat): (r: (Value, seq<Value>))
    ensures i < |q| ==> r.0 == q[i] && |r.1| == |q| - 1
    ensures i < |q| ==> (forall j :: 0 <= j < i ==> r.1[j] == q[j]) &&
                        (forall j :: i <= j < |r.1| ==> r.1[j] == q[j + 1])
    ensures i < |q| ==> multiset(r.1) + multiset{r.0} == multiset(q)
    ensures |q| <= i ==> r == (Nil, q)
  {
    if i < |q| then
      assert q == q[..i] + [q[i]] + q[i + 1..];
      (q[i], q[..i] + q[i + 1..])
    else (Nil, q)
  }

  /** What one pass of `receive` hands back: `reschedule` (the fiber
      suspends), or the action to call, with the message or, for `action.call`,
      with no argument. */
  datatype PassResult = Suspended | Invoke(action: Action, arg: Option<Value>)

  datatype PassEffect = PassEffect(result: PassResult, queue: seq<Value>, processed: nat)

  /** One iteration of `while action.nil?` in Mailbox#receive as written
      (lib/revactor/mailbox.rb:46-76), on the queue q, from processed_upto p0,
      with the mailbox's `timed_out` flag and `timeout_action`. */
  function PassSpec(q: seq<Value>, p0: nat, rules: seq<Rule>,
                    timedOut: bool, timeoutAction: Option<Action>): PassEffect
    requires p0 <= |q|
  {
    var s := ScanPass(q, p0, rules);
    var action := if s.hit.Some? then Some(s.hit.value.action)
                  else if timedOut then timeoutAction else None;
    if action.None? then PassEffect(Suspended, q, s.processed)
    else if timedOut then PassEffect(Invoke(action.value, None), q, s.processed)
    else
      var (m, rest) := DeleteAt(q, s.hit.value.index);
      PassEffect(Invoke(action.value, Some(m)), rest, s.processed)
  }

  /** No message below p is matched by the rules: the messages a receive has
      already skipped. */
  ghost predicate SkippedBelow(q: seq<Value>, p: nat, rules: seq<Rule>) {
    p <= |q| && forall j :: 0 <= j < p ==> !Matches(rules, q[j])
  }

  /** Appending messages (Mailbox#<<) keeps the skipped prefix skipped. */
  lemma AppendKeepsSkipped(q: seq<Value>, more: seq<Value>, p: nat, rules: seq<Rule>)
    requires SkippedBelow(q, p, rules)
    ensures SkippedBelow(q + more, p, rules)
  {
    assert forall j :: 0 <= j < p ==> (q + more)[j] == q[j];
  }

  /** processed_upto never moves back and never passes the queue's end. */
  lemma PassProgress(q: seq<Value>, p0: nat, rules: seq<Rule>,
                     timedOut: bool, timeoutAction: Option<Action>)
    requires p0 <= |q|
    ensures var e := PassSpec(q, p0, rules, timedOut, timeoutAction);
            p0 <= e.processed <= |q| &&
            (e.result.Suspended? ==> e.processed == |q|)
  {
  }

  /** A pass suspends exactly when no unscanned message matches and no
      timeout action is due; the queue is then untouched, every message is
      marked processed and, if the earlier ones were skipped, so are all. */
  lemma {:induction false} PassSuspends(q: seq<Value>, p0: nat, rules: seq<Rule>,
                                        timedOut: bool, timeoutAction: Option<Action>)
    requires p0 <= |q|
    ensures var e := PassSpec(q, p0, rules, timedOut, timeoutAction);
            e.result.Suspended? <==>
              ((forall k :: p0 <= k < |q| ==> !Matches(rules, q[k])) &&
               !(timedOut && timeoutAction.Some?))
    ensures var e := PassSpec(q, p0, rules, timedOut, timeoutAction);
            e.result.Suspended? ==>
              (e.queue == q && e.processed == |q| &&
               (SkippedBelow(q, p0, rules) ==> SkippedBelow(q, |q|, rules)))
  {
    var f := FirstMatchFrom(q, p0, rules);
    if f.Some? {
      assert p0 <= f.value < |q| && Matches(rules, q[f.value]);
    }
  }

  /** Timed out with nothing matched: the timeout action is called with no
      argument and the queue is unchanged. */
  lemma PassTimesOut(q: seq<Value>, p0: nat, rules: seq<Rule>, a: Action)
    requires p0 <= |q|
    requires forall k :: p0 <= k < |q| ==> !Matches(rules, q[k])
    ensures PassSpec(q, p0, rules, true, Some(a)) == PassEffect(Invoke(a, None), q, |q|)
  {
  }

  /** Timed out on a pass where a rule also matched (the code as written):
      the matched rule's action is called with NO argument and nothing is
      removed from the queue. */
  lemma PassTimeoutDropsMatch(q: seq<Value>, p0: nat, rules: seq<Rule>,
                              timeoutAction: Option<Action>, k: nat)
    requires p0 <= k < |q| && Matches(rules, q[k])
    requires forall j :: p0 <= j < k ==> !Matches(rules, q[j])
    ensures PassSpec(q, p0, rules, true, timeoutAction) ==
            PassEffect(Invoke(MatchAction(rules, q[k]).value, None), q, k)
  {
    FirstMatchUnique(q, p0, rules, k);
  }

  lemma {:induction false} FirstMatchUnique(q: seq<Value>, p0: nat, rules: seq<Rule>, k: nat)
    requires p0 <= k < |q| && Matches(rules, q[k])
    requires forall j :: p0 <= j < k ==> !Matches(rules, q[j])
    ensures FirstMatchFrom(q, p0, rules) == Some(k)
    decreases k - p0
  {
    if p0 < k {
      FirstMatchUnique(q, p0 + 1, rules, k);
    }
  }

  /** Not timed out, first unscanned match at position k (the code as
      written): the message removed is the one at p0 + 2(k - p0), which is the
      matching message only when it was the first of the unscanned slice.
      Exactly one message is removed when that index is in range (the others
      keep their order); past the end, nil is passed and nothing is removed.
      If the messages below p0 had been skipped, k is the first matching
      message of the whole queue. */
  lemma PassRemovesAsWritten(q: seq<Value>, p0: nat, rules: seq<Rule>,
                             timeoutAction: Option<Action>, k: nat)
    requires p0 <= k < |q| && Matches(rules, q[k])
    requires forall j :: p0 <= j < k ==> !Matches(rules, q[j])
    ensures var i := p0 + 2 * (k - p0);
            PassSpec(q, p0, rules, false, timeoutAction) ==
            PassEffect(Invoke(MatchAction(rules, q[k]).value, Some(DeleteAt(q, i).0)),
                       DeleteAt(q, i).1, k)
    ensures (p0 + 2 * (k - p0) == k) <==> k == p0
    ensures SkippedBelow(q, p0, rules) ==> forall j :: 0 <= j < k ==> !Matches(rules, q[j])
  {
    FirstMatchUnique(q, p0, rules, k);
    var a := MatchAction(rules, q[k]).value;
    assert rules[FirstRule(rules, q[k]).value].action == a;
    assert ScanPass(q, p0, rules) == Scan(k, Some(Hit(k, p0 + 2 * (k - p0), a)));
  }

  /** A concrete queue that shows the wrong removal: with `[:a, :b, :c]` and
      a single rule for `:b`, the pass calls the action with `:c` and leaves
      `[:a, :b]`. */
  lemma WrongIndexRemoved(q: seq<Value>, rules: seq<Rule>)
    requires q == [Atom("a"), Atom("b"), Atom("c")] && rules == [Rule(Lit(Atom("b")), Block(0))]
    ensures PassSpec(q, 0, rules, false, None) ==
            PassEffect(Invoke(Block(0), Some(Atom("c"))), [Atom("a"), Atom("b")], 1)
  {
    assert FirstRule(rules, q[0]) == None;
    assert FirstRule(rules, q[1]) == Some(0);
    assert MatchAction(rules, q[1]) == Some(Block(0));
    PassRemovesAsWritten(q, 0, rules, None, 1);
    assert q[..2] + q[3..] == [Atom("a"), Atom("b")];
    assert DeleteAt(q, 2) == (Atom("c"), [Atom("a"), Atom("b")]);
  }

  /** A concrete pass that shows the dropped match: the queue holds `:b`,
      a rule for `:b` matches, the timer has fired, and the rule's action is
      called without the message, which stays queued. */
  lemma TimeoutSwallowsMatch()
    ensures var rules := [Rule(Lit(Atom("b")), Block(0))];
            PassSpec([Atom("b")], 0, rules, true, Some(Block(1))) ==
            PassEffect(Invoke(Block(0), None), [Atom("b")], 0)
  {
    var rules := [Rule(Lit(Atom("b")), Block(0))];
    assert Matches(rules, Atom("b"));
    PassTimeoutDropsMatch([Atom("b")], 0, rules, Some(Block(1)), 0);
  }

  /** The pass the code evidently intends: the first matching message is
      removed and handed to its action, whether or not the timer has fired;
      the timeout action runs only when nothing matched. */
  function IntendedPass(q: seq<Value>, p0: nat, rules: seq<Rule>,
                        timedOut: bool, timeoutAction: Option<Action>): PassEffect
    requires p0 <= |q|
  {
    match FirstMatchFrom(q, p0, rules)
    case Some(k) =>
      PassEffect(Invoke(MatchAction(rules, q[k]).value, Some(q[k])), q[..k] + q[k + 1..], k)
    case None =>
      if timedOut && timeoutAction.Some? then PassEffect(Invoke(timeoutAction.value, None), q, |q|)
      else PassEffect(Suspended, q, |q|)
  }

  /** The intended pass removes exactly the earliest matching message (given
      that the messages below p0 were skipped), keeps every other message in
      order, and hands the removed message to the first rule that matches it. */
  lemma IntendedRemovesFirstMatch(q: seq<Value>, p0: nat, rules: seq<Rule>,
                                  timedOut: bool, timeoutAction: Option<Action>, k: nat)
    requires SkippedBelow(q, p0, rules)
    requires k < |q| && Matches(rules, q[k])
    requires forall j :: 0 <= j < k ==> !Matches(rules, q[j])
    ensures var e := IntendedPass(q, p0, rules, timedOut, timeoutAction);
            e.result == Invoke(MatchAction(rules, q[k]).value, Some(q[k])) &&
            |e.queue| == |q| - 1 &&
            (forall j :: 0 <= j < k ==> e.queue[j] == q[j]) &&
            (forall j :: k <= j < |e.queue| ==> e.queue[j] == q[j + 1]) &&
            multiset(e.queue) + multiset{q[k]} == multiset(q)
  {
    assert p0 <= k;
    FirstMatchUnique(q, p0, rules, k);
    assert q == q[..k] + [q[k]] + q[k + 1..];
  }

  /** With the timer fired, the intended pass still prefers a matching
      message over the timeout action. */
  lemma IntendedPrefersMessage(q: seq<Value>, p0: nat, rules: seq<Rule>,
                               timeoutAction: Option<Action>, k: nat)
    requires p0 <= k < |q| && Matches(rules, q[k])
    requires forall j :: p0 <= j < k ==> !Matches(rules, q[j])
    ensures IntendedPass(q, p0, rules, true, timeoutAction).result ==
            Invoke(MatchAction(rules, q[k]).value, Some(q[k]))
    ensures IntendedPass(q, p0, rules, true, timeoutAction).queue == q[..k] + q[k + 1..]
  {
    FirstMatchUnique(q, p0, rules, k);
  }

  // The run queue

  /** `@queue << actor unless @queue.last == actor`. */
  function Pushed<T(==)>(q: seq<T>, a: T): (r: seq<T>)
    ensures |r| > 0 && r[|r| - 1] == a
    ensures q <= r && |r| <= |q| + 1
    ensures r == q <==> |q| > 0 && q[|q| - 1] == a
    ensures r != q ==> r == q + [a]
  {
    if |q| > 0 && q[|q| - 1] == a then q else q + [a]
  }

  /** Pushing each of xs in turn (`@links.each { |l| ... << l }`). */
  function PushAll<T(==)>(q: seq<T>, xs: seq<T>): (r: seq<T>)
    decreases |xs|
  {
    if xs == [] then q else Pushed(PushAll(q, xs[..|xs| - 1]), xs[|xs| - 1])
  }

  ghost predicate NoAdjacentDup<T>(q: seq<T>) {
    forall i :: 0 < i < |q| ==> q[i - 1] != q[i]
  }

  /** The last-element check never creates two equal neighbours. */
  lemma PushedKeepsNoAdjacentDup<T>(q: seq<T>, a: T)
    requires NoAdjacentDup(q)
    ensures NoAdjacentDup(Pushed(q, a))
  {
  }

  /** Pushing a list keeps the earlier queue as a prefix, leaves every
      pushed element in the queue, and creates no adjacent duplicates. */
  lemma {:induction false} PushAllProps<T>(q: seq<T>, xs: seq<T>)
    ensures q <= PushAll(q, xs)
    ensures |PushAll(q, xs)| <= |q| + |xs|
    ensures forall y :: y in PushAll(q, xs) ==> y in q || y in xs
    ensures forall i :: 0 <= i < |xs| ==> xs[i] in PushAll(q, xs)[|q|..] || (|q| > 0 && xs[i] == q[|q| - 1])
    ensures NoAdjacentDup(q) ==> NoAdjacentDup(PushAll(q, xs))
    decreases |xs|
  {
    if xs != [] {
      var init := xs[..|xs| - 1];
      var last := xs[|xs| - 1];
      PushAllProps(q, init);
      var mid := PushAll(q, init);
      var r := Pushed(mid, last);
      assert PushAll(q, xs) == r;
      assert mid[|q|..] <= r[|q|..];
      forall i | 0 <= i < |xs|
        ensures xs[i] in r[|q|..] || (|q| > 0 && xs[i] == q[|q| - 1])
      {
        if i < |xs| - 1 {
          assert xs[i] == init[i];
        } else {
          if |r| > |q| {
            assert r[|r| - 1] in r[|q|..];
          } else {
            assert |r| == |q| && r == q;
          }
        }
      }
      if NoAdjacentDup(q) {
        PushedKeepsNoAdjacentDup(mid, last);
      }
    }
  }
}
