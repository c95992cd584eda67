/**
 * A worked scenario: a catalog of two doctors. Every question drawn from
 * it offers both of them, in some order, and the number after the expected
 * position is judged correct and counted as a correct, answered round.
 */
module Scenarios {
  import opened Catalog
  import opened Questions
  import opened Collections
  import opened Session

  const DoctorA := Person("A", "1900", "Doctor", "t1")
  const DoctorB := Person("B", "1910", "Doctor", "t2")

  lemma DoctorsBuckets(p: string)
    ensures Bucket([DoctorA, DoctorB], p) == if p == "Doctor" then [DoctorA, DoctorB] else []
  {
    assert [DoctorA, DoctorB][..1] == [DoctorA];
    assert [DoctorA][..0] == [];
  }

  /** Grouping the two records gives one profession with both records in
      input order. */
  lemma DoctorsCatalog(t: Test)
    requires BuiltFrom(t, [DoctorA, DoctorB])
    ensures t.professions == ["Doctor"]
    ensures t.data == map["Doctor" := [DoctorA, DoctorB]]
  {
    forall p
      ensures p in t.data <==> p == "Doctor"
      ensures p in t.data ==> t.data[p] == [DoctorA, DoctorB]
    {
      DoctorsBuckets(p);
    }
    assert t.data.Keys == {"Doctor"};
    assert Elements(t.professions) == {"Doctor"};
    ElementsSize(t.professions);
    assert t.professions[0] in t.data;
  }

  /** Whatever the random draws, a question over the two doctors that gets
      asked offers exactly the two records, and its 1-based expected answer
      is judged correct; given as the first answer, it raises both counters
      to one. */
  method DoctorsQuestion(topicDraw: nat, draws: seq<nat>, expectedDraw: nat) returns (g: Generated)
    ensures !g.NoTopics?
    ensures g.Asked? ==>
      && g.topic == "Doctor"
      && |g.q.answers| == 2
      && (forall x :: x in g.q.answers <==> x == DoctorA || x == DoctorB)
      && Answer(g.q, g.q.expected + 1)
      && Score(Counters(0, 0), g.q, Number(g.q.expected + 1)) == Continue(Counters(1, 1))
  {
    var t := NewTest([DoctorA, DoctorB]);
    DoctorsCatalog(t);
    g := NextQuestion(t, topicDraw, draws, expectedDraw);
    if g.Asked? {
      assert forall x :: x in g.q.answers ==> x == DoctorA || x == DoctorB;
      assert g.q.answers[0] != g.q.answers[1];
    }
  }
}
