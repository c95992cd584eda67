/**
 * Question generation, scoring and display.
 *
 * `NextQuestion` is `Test::next_question`. Each call of the random source
 * `gen_range(0..n)` is modelled by an explicit raw draw reduced modulo `n`,
 * so every index of the range is reachable and nothing else is. The
 * sampling loop keeps drawing bucket entries into a hash set until it holds
 * the wanted number of different records; with a finite list of draws the
 * model either finishes within the list or reports that the draws ran out
 * (the source would still be drawing).
 */
module Questions {
  import opened Collections
  import opened Catalog

  /** A multiple-choice question: the options in their listed order and the
      position of the correct one. The source holds references into the
      catalog; the model holds copies of the records. */
  datatype Question = Question(answers: seq<Person>, expected: nat)

  /** What every generated question satisfies: one to four options, no
      record offered twice, and the correct position inside the list. */
  predicate WellFormed(q: Question) {
    1 <= |q.answers| <= 4 && q.expected < |q.answers| && Distinct(q.answers)
  }

  /** The number of options as the source computes it: at most four, and
      no more than the bucket is long. */
  function AnswersNum(bucket: seq<Person>): (n: nat)
    ensures n <= 4 && n <= |bucket|
    ensures n == 4 || n == |bucket|
  {
    Min(4, |bucket|)
  }

  /** The number of options corrected to what the sampling loop can reach:
      at most four, and no more than the bucket has different records. */
  function DistinctAnswersNum(bucket: seq<Person>): nat {
    Min(4, |Elements(bucket)|)
  }

  /** The set of records selected by the first `k` draws. */
  function Picked(bucket: seq<Person>, draws: seq<nat>, k: nat): (s: set<Person>)
    requires |bucket| > 0
    requires k <= |draws|
    ensures s <= Elements(bucket)
    ensures |s| <= k
  {
    if k == 0 then {}
    else
      var x := bucket[draws[k - 1] % |bucket|];
      var before := Picked(bucket, draws, k - 1);
      assert x in before || |before + {x}| == |before| + 1;
      before + {x}
  }

  /** Outcome of the sampling loop: the set it stopped with and how many
      draws it consumed, or the report that the draws ran out first. */
  datatype Sample = Finished(chosen: set<Person>, used: nat) | Exhausted

  /** The `while answers.len() < answers_num` loop: draw entries of `bucket`
      until `answersNum` different records have been inserted. It stops at
      the first draw that completes the set, and runs out only when no prefix
      of the draws completes it. */
  method SampleAnswers(bucket: seq<Person>, answersNum: nat, draws: seq<nat>) returns (r: Sample)
    requires |bucket| > 0
    ensures r.Finished? ==> r.used <= |draws| && r.chosen == Picked(bucket, draws, r.used)
    ensures r.Finished? ==> |r.chosen| == answersNum
    ensures r.Finished? ==> forall j :: 0 <= j < r.used ==> |Picked(bucket, draws, j)| < answersNum
    ensures r.Exhausted? ==> forall j :: 0 <= j <= |draws| ==> |Picked(bucket, draws, j)| < answersNum
  {
    var chosen: set<Person> := {};
    var i := 0;
    while |chosen| < answersNum
      invariant i <= |draws|
      invariant chosen == Picked(bucket, draws, i)
      invariant |chosen| <= answersNum
      invariant forall j :: 0 <= j < i ==> |Picked(bucket, draws, j)| < answersNum
      decreases |draws| - i
    {
      if i == |draws| {
        return Exhausted;
      }
      chosen := chosen + {bucket[draws[i] % |bucket|]};
      i := i + 1;
    }
    r := Finished(chosen, i);
  }

  /** Result of `next_question`: a question with the topic it was drawn
      from and the number of answer draws consumed; or the panic of
      `gen_range` on an empty range when there are no professions; or the
      report that the answer draws ran out before the loop ended. */
  datatype Generated =
    | Asked(q: Question, topic: string, used: nat)
    | NoTopics
    | Unfinished(topic: string)

  /** `Test::next_question`, with the three uses of the random source given
      as `topicDraw`, `draws` (the answer loop) and `expectedDraw`. The
      number of options is the source's `min(4, persons.len())`; a bucket
      with fewer different records than that is never finished, whatever
      the draws. */
  method NextQuestion(t: Test, topicDraw: nat, draws: seq<nat>, expectedDraw: nat) returns (r: Generated)
    requires Valid(t)
    ensures r.NoTopics? <==> |t.professions| == 0
    ensures !r.NoTopics? ==> r.topic == t.professions[topicDraw % |t.professions|] && r.topic in t.data
    ensures r.Asked? ==>
      && WellFormed(r.q)
      && |r.q.answers| == AnswersNum(t.data[r.topic])
      && (forall i :: 0 <= i < |r.q.answers| ==> r.q.answers[i] in t.data[r.topic])
      && (forall i :: 0 <= i < |r.q.answers| ==> r.q.answers[i].profession == r.topic)
      && r.q.expected == expectedDraw % |r.q.answers|
    ensures r.Asked? ==>
      && r.used <= |draws|
      && (forall x :: x in r.q.answers <==> x in Picked(t.data[r.topic], draws, r.used))
      && (forall j :: 0 <= j < r.used ==> |Picked(t.data[r.topic], draws, j)| < |r.q.answers|)
    ensures r.Unfinished? ==>
      forall j :: 0 <= j <= |draws| ==> |Picked(t.data[r.topic], draws, j)| < AnswersNum(t.data[r.topic])
    ensures !r.NoTopics? && |Elements(t.data[r.topic])| < AnswersNum(t.data[r.topic]) ==> r.Unfinished?
  {
    if |t.professions| == 0 {
      return NoTopics;
    }
    var topic := t.professions[topicDraw % |t.professions|];
    var persons := t.data[topic];
    var answersNum := AnswersNum(persons);
    var sample := SampleAnswers(persons, answersNum, draws);
    if sample.Exhausted? {
      return Unfinished(topic);
    }
    SubsetSize(sample.chosen, Elements(persons));
    var answers := Enumerate(sample.chosen);
    forall x | x in answers
      ensures x in persons && x.profession == topic
    {
      assert x in Elements(persons);
    }
    assert 1 <= answersNum <= 4;
    var expected := expectedDraw % answersNum;
    var q := Question(answers, expected);
    assert WellFormed(q);
    r := Asked(q, topic, sample.used);
  }

  /** The verdict of `Question::answer` for the 1-based `answer`. The source
      subtracts one in `usize`, so `answer` must be positive. */
  function Answer(q: Question, answer: nat): (correct: bool)
    requires answer >= 1
    ensures correct <==> answer == q.expected + 1
    ensures WellFormed(q) ==> (correct <==> answer <= |q.answers| && q.answers[answer - 1] == q.answers[q.expected])
  {
    q.expected == answer - 1
  }

  /** Among the offered numbers exactly one is judged correct: the one after
      the expected position. */
  lemma ExactlyOneCorrect(q: Question)
    requires WellFormed(q)
    ensures 1 <= q.expected + 1 <= |q.answers| && Answer(q, q.expected + 1)
    ensures forall a :: 1 <= a <= |q.answers| && Answer(q, a) ==> a == q.expected + 1
  {
  }

  /** One line of terminal output, with its content and without formatting. */
  datatype OutLine =
    | Rule                               // the row of dashes
    | Prompt(text: string)               // the description to match
    | Choice(number: nat, name: string)  // a numbered option
    | Blank
    | Verdict(correct: bool)             // "-- CORRECT --" or "-- INCORRECT --"
    | Reveal(name: string, text: string) // one answer, name and description

  /** The numbered option lines for `answers`, counting from `first`. */
  function Choices(answers: seq<Person>, first: nat): (lines: seq<OutLine>)
    ensures |lines| == |answers|
    ensures forall i :: 0 <= i < |answers| ==> lines[i] == Choice(first + i, answers[i].name)
  {
    if answers == [] then [] else [Choice(first, answers[0].name)] + Choices(answers[1..], first + 1)
  }

  /** The `Display` of a question: a rule, the description of the expected
      record, then one option per answer numbered from 1 in list order. */
  function Display(q: Question): (lines: seq<OutLine>)
    requires q.expected < |q.answers|
    ensures |lines| == |q.answers| + 2
    ensures lines[0] == Rule && lines[1] == Prompt(q.answers[q.expected].text)
    ensures forall i :: 0 <= i < |q.answers| ==> lines[i + 2] == Choice(i + 1, q.answers[i].name)
  {
    [Rule, Prompt(q.answers[q.expected].text)] + Choices(q.answers, 1)
  }

  /** The option the verdict accepts is the displayed choice that names the
      record whose description is the prompt. */
  lemma AcceptedChoiceMatchesPrompt(q: Question, a: nat)
    requires WellFormed(q)
    requires 1 <= a <= |q.answers|
    requires Answer(q, a)
    ensures exists x :: x in q.answers && Display(q)[1] == Prompt(x.text) && Display(q)[a + 1] == Choice(a, x.name)
  {
    var x := q.answers[q.expected];
    assert Display(q)[a + 1] == Choice(a, x.name);
  }

  /** What `Question::answer` prints: a blank line, the verdict, then every
      answer's name and description in list order. */
  function Revealed(q: Question, correct: bool): (lines: seq<OutLine>)
    ensures |lines| == |q.answers| + 2
    ensures lines[0] == Blank && lines[1] == Verdict(correct)
    ensures forall i :: 0 <= i < |q.answers| ==> lines[i + 2] == Reveal(q.answers[i].name, q.answers[i].text)
  {
    [Blank, Verdict(correct)] + RevealLines(q.answers)
  }

  function RevealLines(answers: seq<Person>): (lines: seq<OutLine>)
    ensures |lines| == |answers|
    ensures forall i :: 0 <= i < |answers| ==> lines[i] == Reveal(answers[i].name, answers[i].text)
  {
    if answers == [] then [] else [Reveal(answers[0].name, answers[0].text)] + RevealLines(answers[1..])
  }

  /** The finding about the source's count: a bucket holding the same
      record twice asks for two options, but no sequence of draws ever
      collects two different records, so the loop never ends. */
  lemma {:induction false} RepeatedRecordNeverFinishes(p: Person, draws: seq<nat>, k: nat)
    requires k <= |draws|
    ensures AnswersNum([p, p]) == 2
    ensures |Picked([p, p], draws, k)| < AnswersNum([p, p])
  {
    assert Elements([p, p]) == {p};
    SubsetSize(Picked([p, p], draws, k), {p});
  }

  /** With fewer different records than options the source's sampling can
      never finish, whatever the draws. */
  lemma SourceCountUnreachable(bucket: seq<Person>, draws: seq<nat>, k: nat)
    requires |bucket| > 0
    requires k <= |draws|
    requires |Elements(bucket)| < AnswersNum(bucket)
    ensures |Picked(bucket, draws, k)| < AnswersNum(bucket)
  {
    SubsetSize(Picked(bucket, draws, k), Elements(bucket));
  }

  lemma {:induction false} SubsetSize<T>(a: set<T>, b: set<T>)
    requires a <= b
    ensures |a| <= |b|
  {
    if a != {} {
      var x :| x in a;
      SubsetSize(a - {x}, b - {x});
    }
  }

  /** The draws 0, 1, ..., n-1. */
  function Indices(n: nat): (s: seq<nat>)
    ensures |s| == n
    ensures forall i :: 0 <= i < n ==> s[i] == i
  {
    seq(n, i => i)
  }

  lemma {:induction false} PickedIndices(bucket: seq<Person>, draws: seq<nat>, k: nat)
    requires 0 < |bucket|
    requires k <= |bucket| && k <= |draws|
    requires forall i :: 0 <= i < k ==> draws[i] == i
    ensures Picked(bucket, draws, k) == Elements(bucket[..k])
  {
    if k == 0 {
      assert Elements(bucket[..0]) == {};
    } else {
      var front := bucket[..k - 1];
      PickedIndices(bucket, draws, k - 1);
      assert draws[k - 1] == k - 1;
      ModBelow(k - 1, |bucket|);
      assert Picked(bucket, draws, k) == Picked(bucket, draws, k - 1) + {bucket[k - 1]};
      assert bucket[..k] == front + [bucket[k - 1]];
      ElementsSnoc(front, bucket[k - 1]);
    }
  }

  lemma ModBelow(a: nat, n: nat)
    requires a < n
    ensures a % n == a
  {
  }

  /** With the corrected count the sampling can always finish: the draws
      that visit every position of the bucket once collect all its
      different records, which is at least the corrected count. */
  lemma CorrectedCountReachable(bucket: seq<Person>)
    requires |bucket| > 0
    ensures |Picked(bucket, Indices(|bucket|), |bucket|)| >= DistinctAnswersNum(bucket)
  {
    PickedIndices(bucket, Indices(|bucket|), |bucket|);
    assert bucket[..|bucket|] == bucket;
  }

  /** On a bucket without repeated records the corrected count is the
      source's count. */
  lemma CountsAgreeWithoutRepeats(bucket: seq<Person>)
    requires Distinct(bucket)
    ensures DistinctAnswersNum(bucket) == AnswersNum(bucket)
  {
    ElementsSize(bucket);
  }
}
