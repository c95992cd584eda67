/**
 * The quiz catalog: person records grouped by profession.
 *
 * `GroupByProfession` is the grouping loop of `Test::new`: it walks the
 * parsed records once, creating an empty bucket the first time a
 * profession is seen and appending every record to the bucket of its own
 * profession. `NewTest` calls it and then collects the map's key set as
 * the list of professions, in the unspecified order of hash-map iteration.
 */
module Catalog {
  import opened Collections

  /** One record of the data file. Equality is on all four fields, as the
      derived `Eq` and `Hash` of the source give it. */
  datatype Person = Person(name: string, years: string, profession: string, text: string)

  /** The loaded catalog: a bucket of records per profession, and the
      professions themselves (for drawing a topic by index). */
  datatype Test = Test(data: map<string, seq<Person>>, professions: seq<string>)

  /** Reference definition of a bucket: the records of `people` whose
      profession is `p`, in input order. */
  function Bucket(people: seq<Person>, p: string): (b: seq<Person>)
    ensures |b| <= |people|
    ensures forall x :: x in b ==> x in people && x.profession == p
  {
    if people == [] then []
    else
      var front, last := people[..|people| - 1], people[|people| - 1];
      Bucket(front, p) + (if last.profession == p then [last] else [])
  }

  /** The positions in `people` of the records whose profession is `p`,
      in increasing order. */
  function MatchingIndices(people: seq<Person>, p: string): seq<nat>
  {
    if people == [] then []
    else
      var n := |people| - 1;
      MatchingIndices(people[..n], p) + (if people[n].profession == p then [n] else [])
  }

  /** `data` groups `people`: a profession is a key exactly when some record
      has it, and its bucket is that profession's records in input order. */
  ghost predicate Groups(data: map<string, seq<Person>>, people: seq<Person>) {
    forall p :: (p in data <==> Bucket(people, p) != []) && (p in data ==> data[p] == Bucket(people, p))
  }

  /** What `Test::new` builds from `people`: the grouping, and the
      profession list holding every key of the map exactly once. */
  ghost predicate BuiltFrom(t: Test, people: seq<Person>) {
    && Groups(t.data, people)
    && Distinct(t.professions)
    && (forall p :: p in t.professions <==> p in t.data)
  }

  /** The catalog invariant that the rest of the program relies on, stated
      without reference to the input list: the profession list enumerates
      the keys, no bucket is empty, and every bucket holds only records of
      its own profession. */
  ghost predicate Valid(t: Test) {
    && Distinct(t.professions)
    && (forall p :: p in t.professions <==> p in t.data)
    && (forall p :: p in t.data ==> t.data[p] != [])
    && (forall p, x :: p in t.data && x in t.data[p] ==> x.profession == p)
  }

  /** `Test::new` after the data file has been read and parsed into
      `people`: group the records, then collect the map's keys. */
  method NewTest(people: seq<Person>) returns (t: Test)
    ensures BuiltFrom(t, people)
    ensures Valid(t)
  {
    var data := GroupByProfession(people);
    var professions := Enumerate(data.Keys);
    t := Test(data, professions);
    BuiltIsValid(t, people);
  }

  /** The `for person in json` loop of `Test::new`. */
  method GroupByProfession(people: seq<Person>) returns (data: map<string, seq<Person>>)
    ensures Groups(data, people)
  {
    data := map[];
    var i := 0;
    while i < |people|
      invariant i <= |people|
      invariant Groups(data, people[..i])
    {
      var person := people[i];
      ghost var before := data;
      ghost var bucket := if person.profession in data then data[person.profession] else [];
      if person.profession !in data {
        data := data[person.profession := []];
      }
      data := data[person.profession := data[person.profession] + [person]];
      assert data == before[person.profession := bucket + [person]];
      GroupsAppend(before, people, i);
      i := i + 1;
    }
    assert people[..|people|] == people;
  }

  /** The catalog invariant follows from the grouping. */
  lemma BuiltIsValid(t: Test, people: seq<Person>)
    requires BuiltFrom(t, people)
    ensures Valid(t)
  {
    forall p, x | p in t.data && x in t.data[p]
      ensures x.profession == p
    {
      assert x in Bucket(people, p);
    }
  }

  /** One pass of the grouping loop: appending the i-th record to the
      bucket of its profession (created empty when missing) turns the exact
      grouping of the first i records into that of the first i + 1. */
  lemma GroupsAppend(data: map<string, seq<Person>>, people: seq<Person>, i: nat)
    requires i < |people|
    requires Groups(data, people[..i])
    ensures var x := people[i];
      Groups(data[x.profession := (if x.profession in data then data[x.profession] else []) + [x]], people[..i + 1])
  {
    var x, s := people[i], people[..i];
    assert people[..i + 1][..i] == s;
    var data' := data[x.profession := (if x.profession in data then data[x.profession] else []) + [x]];
    forall p
      ensures (p in data' <==> Bucket(people[..i + 1], p) != []) && (p in data' ==> data'[p] == Bucket(people[..i + 1], p))
    {
      assert Bucket(people[..i + 1], p) == Bucket(s, p) + (if x.profession == p then [x] else []);
    }
  }

  /** Every input record sits in the bucket of its own profession. */
  lemma {:induction false} PersonInOwnBucket(people: seq<Person>, i: nat)
    requires i < |people|
    ensures people[i] in Bucket(people, people[i].profession)
  {
    var n := |people| - 1;
    if i < n {
      assert people[..n][i] == people[i];
      PersonInOwnBucket(people[..n], i);
    }
  }

  /** After construction every record is found under its own profession. */
  lemma CatalogHoldsEveryPerson(people: seq<Person>, t: Test, i: nat)
    requires BuiltFrom(t, people)
    requires i < |people|
    ensures people[i].profession in t.data && people[i] in t.data[people[i].profession]
  {
    PersonInOwnBucket(people, i);
  }

  /** The matching positions lie inside the input, strictly increase, and
      are exactly the positions whose record has the profession. */
  lemma {:induction false} MatchingIndicesExact(people: seq<Person>, p: string)
    ensures forall k :: 0 <= k < |MatchingIndices(people, p)| ==> MatchingIndices(people, p)[k] < |people|
    ensures forall k, l :: 0 <= k < l < |MatchingIndices(people, p)| ==>
      MatchingIndices(people, p)[k] < MatchingIndices(people, p)[l]
    ensures forall i :: 0 <= i < |people| ==> (people[i].profession == p <==> i in MatchingIndices(people, p))
  {
    if people != [] {
      var n := |people| - 1;
      var front := people[..n];
      MatchingIndicesExact(front, p);
      var before := MatchingIndices(front, p);
      assert MatchingIndices(people, p) == before + (if people[n].profession == p then [n] else []);
      assert forall i :: 0 <= i < n ==> front[i] == people[i];
      assert n !in before;
    }
  }

  /** The k-th record of a bucket is the input record at the k-th matching
      position. */
  lemma {:induction false} BucketAtMatchingIndices(people: seq<Person>, p: string)
    ensures |MatchingIndices(people, p)| == |Bucket(people, p)|
    ensures forall k :: 0 <= k < |Bucket(people, p)| ==>
      MatchingIndices(people, p)[k] < |people| && Bucket(people, p)[k] == people[MatchingIndices(people, p)[k]]
  {
    if people != [] {
      var n := |people| - 1;
      var front := people[..n];
      BucketAtMatchingIndices(front, p);
      var matches := people[n].profession == p;
      var idx, b := MatchingIndices(front, p), Bucket(front, p);
      assert MatchingIndices(people, p) == idx + (if matches then [n] else []);
      assert Bucket(people, p) == b + (if matches then [people[n]] else []);
      forall k | 0 <= k < |b|
        ensures idx[k] < n && people[idx[k]] == front[idx[k]]
      {
      }
    }
  }

  /** A bucket is exactly the selection of the matching records, in the
      order they had in the input: the k-th record of the bucket is the
      record at the k-th matching position, the positions increase, and a
      position is listed exactly when its record has the profession. */
  lemma {:induction false} BucketKeepsInputOrder(people: seq<Person>, p: string)
    ensures |MatchingIndices(people, p)| == |Bucket(people, p)|
    ensures forall k :: 0 <= k < |Bucket(people, p)| ==>
      MatchingIndices(people, p)[k] < |people| && Bucket(people, p)[k] == people[MatchingIndices(people, p)[k]]
    ensures forall k, l :: 0 <= k < l < |MatchingIndices(people, p)| ==>
      MatchingIndices(people, p)[k] < MatchingIndices(people, p)[l]
    ensures forall i :: 0 <= i < |people| ==> (people[i].profession == p <==> i in MatchingIndices(people, p))
  {
    BucketAtMatchingIndices(people, p);
    MatchingIndicesExact(people, p);
  }

  /** The sum of the bucket sizes of the professions in `ks`. */
  function CatalogSize(data: map<string, seq<Person>>, ks: seq<string>): nat
    requires forall k :: k in ks ==> k in data
  {
    if ks == [] then 0 else |data[ks[0]]| + CatalogSize(data, ks[1..])
  }

  /** The sum of the reference bucket sizes of the professions in `ks`. */
  function BucketTotal(people: seq<Person>, ks: seq<string>): nat {
    if ks == [] then 0 else |Bucket(people, ks[0])| + BucketTotal(people, ks[1..])
  }

  /** How many times `p` occurs in `ks`. */
  function Occurrences(ks: seq<string>, p: string): nat {
    if ks == [] then 0 else (if ks[0] == p then 1 else 0) + Occurrences(ks[1..], p)
  }

  lemma {:induction false} OccurrencesOfDistinct(ks: seq<string>, p: string)
    requires Distinct(ks)
    ensures Occurrences(ks, p) == if p in ks then 1 else 0
  {
    if ks != [] {
      assert Distinct(ks[1..]);
      OccurrencesOfDistinct(ks[1..], p);
      assert ks[0] in ks[1..] ==> false;
      assert p in ks <==> p == ks[0] || p in ks[1..];
    }
  }

  /** Appending a record adds one to the total for every listing of its
      profession. */
  lemma {:induction false} BucketTotalSnoc(people: seq<Person>, x: Person, ks: seq<string>)
    ensures BucketTotal(people + [x], ks) == BucketTotal(people, ks) + Occurrences(ks, x.profession)
  {
    assert (people + [x])[..|people|] == people;
    if ks != [] {
      BucketTotalSnoc(people, x, ks[1..]);
    }
  }

  /** When `ks` lists every profession of `people` once, the buckets of
      `ks` share out `people` exactly. */
  lemma {:induction false} BucketTotalCoversInput(people: seq<Person>, ks: seq<string>)
    requires Distinct(ks)
    requires forall x :: x in people ==> x.profession in ks
    ensures BucketTotal(people, ks) == |people|
  {
    if people == [] {
      BucketTotalEmpty(ks);
    } else {
      var n := |people| - 1;
      var front, last := people[..n], people[n];
      assert people == front + [last];
      BucketTotalCoversInput(front, ks);
      BucketTotalSnoc(front, last, ks);
      OccurrencesOfDistinct(ks, last.profession);
    }
  }

  lemma {:induction false} BucketTotalEmpty(ks: seq<string>)
    ensures BucketTotal([], ks) == 0
  {
    if ks != [] {
      BucketTotalEmpty(ks[1..]);
    }
  }

  lemma {:induction false} CatalogSizeIsBucketTotal(people: seq<Person>, data: map<string, seq<Person>>, ks: seq<string>)
    requires forall k :: k in ks ==> k in data && data[k] == Bucket(people, k)
    ensures CatalogSize(data, ks) == BucketTotal(people, ks)
  {
    if ks != [] {
      CatalogSizeIsBucketTotal(people, data, ks[1..]);
    }
  }

  /** The bucket sizes of the built catalog add up to the number of input
      records: no record is lost and none is counted twice. */
  lemma BucketSizesSumToInput(people: seq<Person>, t: Test)
    requires BuiltFrom(t, people)
    ensures CatalogSize(t.data, t.professions) == |people|
  {
    CatalogSizeIsBucketTotal(people, t.data, t.professions);
    forall x | x in people
      ensures x.profession in t.professions
    {
      var i :| 0 <= i < |people| && people[i] == x;
      PersonInOwnBucket(people, i);
    }
    BucketTotalCoversInput(people, t.professions);
  }
}
