/**
 * The session loop of `main`: ask a question, read one line, and keep the
 * `correct` and `total` counters.
 *
 * Standard input is a list of rounds whose lines are already classified:
 * the exit line `"e\n"`, a line that parses as a number, a line that does
 * not, or end of input (where `read_line` leaves the line empty). The three
 * random choices of each round's question come with the round. Every way
 * the source's loop can end is an `Ending`: the exit line ends it normally,
 * and the panics of the source (a bad number, the `usize` subtraction on
 * answer 0, a `u32` counter overflow, an empty catalog, and the parse of
 * the empty line read at end of input) end it abnormally.
 * `SamplingUnfinished` stands for a round whose answer draws ran out while
 * the source would still be drawing, and `OutOfRounds` for a session that
 * used up the supplied rounds before it ended.
 */
module Session {
  import opened Catalog
  import opened Questions

  /** The largest value of the source's `u32` counters. */
  const U32_MAX: nat := 0xFFFF_FFFF

  datatype Input = Exit | Number(n: nat) | Unparsable | EndOfInput

  /** One round of the loop: the random draws for its question and the
      line the user typed. */
  datatype Round = Round(topicDraw: nat, draws: seq<nat>, expectedDraw: nat, line: Input)

  datatype Ending =
    | Quit                // the exit line
    | ParseFailure        // `expect("Input not is not u32")`
    | AnswerUnderflow     // `answer - 1` on answer 0
    | CounterOverflow     // `correct += 1` or `total += 1` past the `u32` range
    | EmptyCatalog        // `gen_range(0..0)` on an empty catalog
    | SamplingUnfinished  // the answer draws ran out
    | InputEnded          // end of input: the empty line does not parse
    | OutOfRounds         // the supplied rounds ran out

  datatype Counters = Counters(correct: nat, total: nat)

  /** The counters as `u32` values with never more correct answers than
      answered rounds. */
  predicate Bounded(c: Counters) {
    c.correct <= c.total <= U32_MAX
  }

  /** The loop's response to one line: go on with new counters, or stop. */
  datatype Step = Continue(next: Counters) | Stop(ending: Ending)

  /** One pass of the loop body after the question has been shown: every
      line but a positive number stops the loop, and a pass that goes on
      counts one more answered round. */
  function Score(c: Counters, q: Question, line: Input): (s: Step)
    ensures line == Exit ==> s == Stop(Quit)
    ensures line == Unparsable ==> s == Stop(ParseFailure)
    ensures line == EndOfInput ==> s == Stop(InputEnded)
    ensures line == Number(0) ==> s == Stop(AnswerUnderflow)
    ensures s.Continue? ==> line.Number? && line.n >= 1 && s.next.total == c.total + 1
  {
    match line
    case Exit => Stop(Quit)
    case Unparsable => Stop(ParseFailure)
    case EndOfInput => Stop(InputEnded)
    case Number(n) =>
      if n == 0 then Stop(AnswerUnderflow)
      else if Answer(q, n) && c.correct == U32_MAX then Stop(CounterOverflow)
      else if c.total == U32_MAX then Stop(CounterOverflow)
      else Continue(Counters(if Answer(q, n) then c.correct + 1 else c.correct, c.total + 1))
  }

  /** A round that goes on raises `correct` by one exactly when the answer
      was right, and keeps the counters bounded; a positive number below
      the `u32` limit always goes on. */
  lemma ScoreStep(c: Counters, q: Question, line: Input)
    requires Bounded(c)
    ensures Score(c, q, line).Continue? ==>
      && Bounded(Score(c, q, line).next)
      && (Score(c, q, line).next.correct == c.correct + 1 <==> line.n - 1 == q.expected)
      && (Score(c, q, line).next.correct == c.correct <==> line.n - 1 != q.expected)
    ensures line.Number? && line.n >= 1 && c.total < U32_MAX ==> Score(c, q, line).Continue?
  {
  }

  /** The number of rounds, among those answered, whose answer was right. */
  function CorrectCount(asked: seq<Question>, given: seq<nat>): (n: nat)
    requires |asked| == |given|
    requires forall i :: 0 <= i < |given| ==> given[i] >= 1
    ensures n <= |given|
  {
    if given == [] then 0
    else
      var k := |given| - 1;
      CorrectCount(asked[..k], given[..k]) + (if Answer(asked[k], given[k]) then 1 else 0)
  }

  lemma CorrectCountAppend(asked: seq<Question>, given: seq<nat>, q: Question, n: nat)
    requires |asked| == |given|
    requires forall i :: 0 <= i < |given| ==> given[i] >= 1
    requires n >= 1
    ensures CorrectCount(asked + [q], given + [n]) == CorrectCount(asked, given) + (if Answer(q, n) then 1 else 0)
  {
    assert (asked + [q])[..|asked|] == asked;
    assert (given + [n])[..|given|] == given;
  }

  /** The profession a round draws from a catalog with professions. */
  function TopicOf(t: Test, round: Round): (p: string)
    requires |t.professions| > 0
    ensures p in t.professions
  {
    t.professions[round.topicDraw % |t.professions|]
  }

  /** `q` is the question `next_question` builds for `round` over `t` when
      its sampling loop stops after `used` draws: the source's number of
      options, the records those draws picked from the drawn profession's
      bucket (and no completed set earlier), and the drawn expected
      position. */
  ghost predicate AskedIn(t: Test, round: Round, q: Question, used: nat) {
    && Valid(t) && |t.professions| > 0
    && (var b := t.data[TopicOf(t, round)];
        && WellFormed(q)
        && |q.answers| == AnswersNum(b)
        && used <= |round.draws|
        && (forall x :: x in q.answers <==> x in Picked(b, round.draws, used))
        && (forall j :: 0 <= j < used ==> |Picked(b, round.draws, j)| < AnswersNum(b))
        && q.expected == round.expectedDraw % |q.answers|)
  }

  /** `q` is a question `next_question` can build for `round` over `t`. */
  ghost predicate Generates(t: Test, round: Round, q: Question) {
    exists u: nat :: AskedIn(t, round, q, u)
  }

  /** The answered rounds of a session: the i-th round's line was the
      positive number `given[i]`, and `asked[i]`, the question it answered,
      is the one its draws generate over `t`. */
  ghost predicate AnswerLog(t: Test, rounds: seq<Round>, asked: seq<Question>, given: seq<nat>) {
    && |asked| == |given| <= |rounds|
    && (forall i :: 0 <= i < |given| ==> given[i] >= 1 && rounds[i].line == Number(given[i]))
    && (forall i :: 0 <= i < |asked| ==> Generates(t, rounds[i], asked[i]))
  }

  lemma AnswerLogAppend(t: Test, rounds: seq<Round>, asked: seq<Question>, given: seq<nat>, q: Question, u: nat)
    requires AnswerLog(t, rounds, asked, given) && |given| < |rounds|
    requires rounds[|given|].line.Number? && rounds[|given|].line.n >= 1
    requires AskedIn(t, rounds[|given|], q, u)
    ensures AnswerLog(t, rounds, asked + [q], given + [rounds[|given|].line.n])
  {
    var asked' := asked + [q];
    forall i | 0 <= i < |asked'|
      ensures Generates(t, rounds[i], asked'[i])
    {
      if i == |asked| {
        assert AskedIn(t, rounds[i], asked'[i], u);
      } else {
        assert asked'[i] == asked[i];
      }
    }
  }

  lemma AnswerLogPrefix(t: Test, rounds: seq<Round>, asked: seq<Question>, given: seq<nat>, k: nat)
    requires AnswerLog(t, rounds, asked, given) && k <= |given|
    ensures AnswerLog(t, rounds, asked[..k], given[..k])
  {
    forall i | 0 <= i < k
      ensures Generates(t, rounds[i], asked[..k][i])
    {
      assert asked[..k][i] == asked[i];
    }
  }

  /** Two questions generated for the same round expect the same answer
      number, however their options are ordered. */
  lemma SameExpected(t: Test, round: Round, q1: Question, u1: nat, q2: Question, u2: nat)
    requires AskedIn(t, round, q1, u1) && AskedIn(t, round, q2, u2)
    ensures q1.expected == q2.expected
  {
  }

  /** The log fixes the score: two logs of the same session over the same
      catalog agree on how many rounds were answered right, whatever
      order the options were listed in. */
  lemma {:induction false} LogDeterminesCorrect(t: Test, rounds: seq<Round>, a1: seq<Question>, a2: seq<Question>, given: seq<nat>)
    requires AnswerLog(t, rounds, a1, given) && AnswerLog(t, rounds, a2, given)
    ensures CorrectCount(a1, given) == CorrectCount(a2, given)
  {
    if given != [] {
      var k := |given| - 1;
      assert Generates(t, rounds[k], a1[k]) && Generates(t, rounds[k], a2[k]);
      var u1: nat :| AskedIn(t, rounds[k], a1[k], u1);
      var u2: nat :| AskedIn(t, rounds[k], a2[k], u2);
      SameExpected(t, rounds[k], a1[k], u1, a2[k], u2);
      AnswerLogPrefix(t, rounds, a1, given, k);
      AnswerLogPrefix(t, rounds, a2, given, k);
      LogDeterminesCorrect(t, rounds, a1[..k], a2[..k], given[..k]);
    }
  }

  /** How the session ended: the final counters, the reason, and the
      questions answered with the numbers given for them. */
  datatype Report = Report(correct: nat, total: nat, ending: Ending, asked: seq<Question>, given: seq<nat>)

  /** The loop of `main` over the catalog `t`. Each round first generates
      its question, then reads its line. `total` counts the answered rounds
      and `correct` those answered right; the round that ends the session,
      by the exit line or by a failure, changes neither. */
  method RunSession(t: Test, rounds: seq<Round>) returns (r: Report)
    requires Valid(t)
    ensures r.correct <= r.total <= U32_MAX
    ensures r.total <= |rounds| && |r.asked| == r.total && |r.given| == r.total
    ensures AnswerLog(t, rounds, r.asked, r.given)
    ensures r.correct == CorrectCount(r.asked, r.given)
    ensures r.ending == OutOfRounds <==> r.total == |rounds|
    ensures r.ending == EmptyCatalog <==> |t.professions| == 0 && |rounds| > 0
    ensures r.ending == SamplingUnfinished ==>
      && r.total < |rounds| && |t.professions| > 0
      && (var b, ds := t.data[TopicOf(t, rounds[r.total])], rounds[r.total].draws;
          forall j :: 0 <= j <= |ds| ==> |Picked(b, ds, j)| < AnswersNum(b))
    ensures r.ending !in {EmptyCatalog, SamplingUnfinished, OutOfRounds} ==>
      r.total < |rounds| && exists q :: Generates(t, rounds[r.total], q)
    ensures r.ending == Quit ==> rounds[r.total].line == Exit
    ensures r.ending == ParseFailure ==> rounds[r.total].line == Unparsable
    ensures r.ending == InputEnded ==> rounds[r.total].line == EndOfInput
    ensures r.ending == AnswerUnderflow ==> rounds[r.total].line == Number(0)
    ensures r.ending == CounterOverflow ==>
      r.total == U32_MAX && rounds[r.total].line.Number? && rounds[r.total].line.n >= 1
  {
    var c := Counters(0, 0);
    var asked: seq<Question> := [];
    var given: seq<nat> := [];
    while c.total < |rounds|
      invariant Bounded(c)
      invariant c.total <= |rounds| && |asked| == c.total && |given| == c.total
      invariant AnswerLog(t, rounds, asked, given)
      invariant c.correct == CorrectCount(asked, given)
      invariant c.total > 0 ==> |t.professions| > 0
      decreases |rounds| - c.total
    {
      var round := rounds[c.total];
      var g := NextQuestion(t, round.topicDraw, round.draws, round.expectedDraw);
      if g.NoTopics? {
        return Report(c.correct, c.total, EmptyCatalog, asked, given);
      }
      if g.Unfinished? {
        assert g.topic == TopicOf(t, round);
        return Report(c.correct, c.total, SamplingUnfinished, asked, given);
      }
      assert AskedIn(t, round, g.q, g.used);
      var step := Score(c, g.q, round.line);
      ScoreStep(c, g.q, round.line);
      if step.Stop? {
        assert Generates(t, round, g.q);
        return Report(c.correct, c.total, step.ending, asked, given);
      }
      AnswerLogAppend(t, rounds, asked, given, g.q, g.used);
      CorrectCountAppend(asked, given, g.q, round.line.n);
      asked := asked + [g.q];
      given := given + [round.line.n];
      c := step.next;
    }
    r := Report(c.correct, c.total, OutOfRounds, asked, given);
  }
}
