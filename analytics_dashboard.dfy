/** The admin analytics page (src/components/admin/AnalyticsDashboard.tsx): ratings are
    bucketed by event title in an accumulator dictionary, chart labels are the first 15
    characters of a name, the attendance series is the fetched list reversed, and the
    club series leaves out clubs without members. The fetched rows and counts are
    inputs; averages (`/` and `toFixed`) are left to the caller as (total, count) pairs. */
module AnalyticsDashboard {
  import opened Wrappers
  import Seqs

  /** One `event_ratings` row with its joined event title (`events(title)`), which may be
      missing. */
  datatype Rating = Rating(eventId: string, rating: int, title: Option<string>)

  /** `(curr.events as any)?.title || 'Unknown'`. */
  function TitleOf(r: Rating): (t: string)
    ensures t != ""
    ensures r.title.Some? && r.title.value != "" ==> t == r.title.value
  {
    if r.title.Some? && r.title.value != "" then r.title.value else "Unknown"
  }

  /** The accumulator entry `{ total, count }`. */
  datatype Bucket = Bucket(total: int, count: int)

  /** What a bucket adds up per rating: one for the count, the score for the total. */
  datatype Measure = Count | Total

  function Weight(m: Measure, r: Rating): int {
    match m
    case Count => 1
    case Total => r.rating
  }

  /** The measure summed over the ratings whose title is `t`. */
  function WeightWith(ratings: seq<Rating>, t: string, m: Measure): int {
    if ratings == [] then 0
    else
      var last := ratings[|ratings| - 1];
      WeightWith(ratings[..|ratings| - 1], t, m) + (if TitleOf(last) == t then Weight(m, last) else 0)
  }

  /** The measure summed over all ratings: `ratings.length`, or `totalRatings` (line 72). */
  function WeightAll(ratings: seq<Rating>, m: Measure): int {
    if ratings == [] then 0
    else WeightAll(ratings[..|ratings| - 1], m) + Weight(m, ratings[|ratings| - 1])
  }

  /** The measure summed over the ratings whose title is not in `inherited`. */
  function WeightOwn(ratings: seq<Rating>, inherited: set<string>, m: Measure): int {
    if ratings == [] then 0
    else
      var last := ratings[|ratings| - 1];
      WeightOwn(ratings[..|ratings| - 1], inherited, m) + (if TitleOf(last) in inherited then 0 else Weight(m, last))
  }

  /** The property names a fresh `{}` inherits from `Object.prototype`. Each reads as a
      truthy value (a method, or the prototype itself for `__proto__`), so `!acc[name]`
      is false for them although `acc` has no such key of its own. */
  const ObjectPrototypeNames: set<string> :=
    {"constructor", "__proto__", "hasOwnProperty", "isPrototypeOf", "propertyIsEnumerable",
     "toLocaleString", "toString", "valueOf", "__defineGetter__", "__defineSetter__",
     "__lookupGetter__", "__lookupSetter__"}

  /** The accumulator's own keys in the order they were first set, for an accumulator
      that inherits the truthy names `inherited`: the page's `{}` inherits
      `ObjectPrototypeNames`, a `Map` or `Object.create(null)` inherits nothing. */
  function Titles(ratings: seq<Rating>, inherited: set<string>): seq<string> {
    if ratings == [] then []
    else
      var before := Titles(ratings[..|ratings| - 1], inherited);
      var t := TitleOf(ratings[|ratings| - 1]);
      if t in before || t in inherited then before else before + [t]
  }

  predicate Distinct(keys: seq<string>) {
    forall i, j :: 0 <= i < j < |keys| ==> keys[i] != keys[j]
  }

  /** The titles are distinct, and a title is a key exactly when it is not inherited and
      some rating has it. */
  lemma {:induction false} TitlesSpec(ratings: seq<Rating>, inherited: set<string>)
    ensures Distinct(Titles(ratings, inherited))
    ensures forall t :: t in Titles(ratings, inherited) <==>
              t !in inherited && exists i :: 0 <= i < |ratings| && TitleOf(ratings[i]) == t
  {
    if ratings != [] {
      var n := |ratings| - 1;
      TitlesSpec(ratings[..n], inherited);
      forall t ensures t in Titles(ratings, inherited) <==>
                       t !in inherited && exists i :: 0 <= i < |ratings| && TitleOf(ratings[i]) == t {
        if t in Titles(ratings[..n], inherited) {
          var i :| 0 <= i < n && TitleOf(ratings[..n][i]) == t;
          assert TitleOf(ratings[i]) == t;
        }
        if exists i :: 0 <= i < |ratings| && TitleOf(ratings[i]) == t {
          var i :| 0 <= i < |ratings| && TitleOf(ratings[i]) == t;
          if i < n {
            assert TitleOf(ratings[..n][i]) == t;
          }
        }
      }
    }
  }

  /** The `reduce` at lines 55-63 over an accumulator that inherits `inherited`: one
      bucket per title that is not inherited, holding the sum of the scores and the
      number of ratings with that title; `order` is the keys' insertion order. */
  method BucketRatings(ratings: seq<Rating>, inherited: set<string>)
    returns (buckets: map<string, Bucket>, order: seq<string>)
    ensures order == Titles(ratings, inherited)
    ensures forall t :: t in buckets <==> t in order
    ensures forall t :: t in buckets ==>
              buckets[t] == Bucket(WeightWith(ratings, t, Total), WeightWith(ratings, t, Count))
  {
    buckets := map[];
    order := [];
    var k := 0;
    while k < |ratings|
      invariant 0 <= k <= |ratings|
      invariant order == Titles(ratings[..k], inherited)
      invariant forall t :: t in buckets <==> t in order
      invariant forall t :: t in buckets ==> t !in inherited
      invariant forall t :: t in buckets ==>
                  buckets[t] == Bucket(WeightWith(ratings[..k], t, Total), WeightWith(ratings[..k], t, Count))
    {
      var r := ratings[k];
      var title := TitleOf(r);
      // An inherited name reads as truthy, so no own bucket is made, and the `+=` writes
      // land on the inherited member rather than on a key of the accumulator.
      if title !in inherited {
        if title !in buckets {
          NoTitleNoWeight(ratings[..k], inherited, title, Total);
          NoTitleNoWeight(ratings[..k], inherited, title, Count);
          buckets := buckets[title := Bucket(0, 0)];
          order := order + [title];
        }
        buckets := buckets[title := Bucket(buckets[title].total + r.rating, buckets[title].count + 1)];
      }
      assert ratings[..k + 1][..k] == ratings[..k];
      k := k + 1;
    }
    assert ratings[..k] == ratings;
  }

  /** A title that is neither inherited nor yet a key has nothing summed under it. */
  lemma {:induction false} NoTitleNoWeight(ratings: seq<Rating>, inherited: set<string>, t: string, m: Measure)
    requires t !in Titles(ratings, inherited) && t !in inherited
    ensures WeightWith(ratings, t, m) == 0
  {
    if ratings != [] {
      NoTitleNoWeight(ratings[..|ratings| - 1], inherited, t, m);
    }
  }

  /** The measure summed over the buckets named by `keys`. */
  function SumOver(ratings: seq<Rating>, keys: seq<string>, m: Measure): int {
    if keys == [] then 0 else WeightWith(ratings, keys[0], m) + SumOver(ratings, keys[1..], m)
  }

  function Occurrences(keys: seq<string>, t: string): nat {
    if keys == [] then 0 else (if keys[0] == t then 1 else 0) + Occurrences(keys[1..], t)
  }

  lemma {:induction false} OccursOnce(keys: seq<string>, t: string)
    requires Distinct(keys) && t in keys
    ensures Occurrences(keys, t) == 1
  {
    if keys[0] == t {
      OccursNot(keys[1..], t);
    } else {
      OccursOnce(keys[1..], t);
    }
  }

  lemma {:induction false} OccursNot(keys: seq<string>, t: string)
    requires t !in keys
    ensures Occurrences(keys, t) == 0
  {
    if keys != [] {
      OccursNot(keys[1..], t);
    }
  }

  lemma {:induction false} SumOverSnoc(ratings: seq<Rating>, r: Rating, keys: seq<string>, m: Measure)
    ensures SumOver(ratings + [r], keys, m) == SumOver(ratings, keys, m) + Occurrences(keys, TitleOf(r)) * Weight(m, r)
  {
    if keys != [] {
      SumOverSnoc(ratings, r, keys[1..], m);
      assert (ratings + [r])[..|ratings|] == ratings;
    }
  }

  /** Every rating whose title is not inherited lands in exactly one bucket: over any
      distinct list of non-inherited keys that holds every such title, the buckets add
      up to the measure over those ratings. */
  lemma {:induction false} BucketsCoverAll(ratings: seq<Rating>, inherited: set<string>, keys: seq<string>, m: Measure)
    requires Distinct(keys)
    requires forall i :: 0 <= i < |keys| ==> keys[i] !in inherited
    requires forall i :: 0 <= i < |ratings| && TitleOf(ratings[i]) !in inherited ==> TitleOf(ratings[i]) in keys
    ensures SumOver(ratings, keys, m) == WeightOwn(ratings, inherited, m)
  {
    if ratings == [] {
      SumOverEmpty(keys, m);
    } else {
      var n := |ratings| - 1;
      var r := ratings[n];
      assert ratings == ratings[..n] + [r];
      BucketsCoverAll(ratings[..n], inherited, keys, m);
      SumOverSnoc(ratings[..n], r, keys, m);
      if TitleOf(r) in inherited {
        OccursNot(keys, TitleOf(r));
      } else {
        OccursOnce(keys, TitleOf(r));
      }
    }
  }

  lemma {:induction false} SumOverEmpty(keys: seq<string>, m: Measure)
    ensures SumOver([], keys, m) == 0
  {
    if keys != [] {
      SumOverEmpty(keys[1..], m);
    }
  }

  lemma {:induction false} CountAll(ratings: seq<Rating>)
    ensures WeightAll(ratings, Count) == |ratings|
  {
    if ratings != [] {
      CountAll(ratings[..|ratings| - 1]);
    }
  }

  /** With nothing inherited, every rating is its own. */
  lemma {:induction false} NothingInherited(ratings: seq<Rating>, m: Measure)
    ensures WeightOwn(ratings, {}, m) == WeightAll(ratings, m)
  {
    if ratings != [] {
      NothingInherited(ratings[..|ratings| - 1], m);
    }
  }

  /** The ratings that count towards the buckets are at most all of them, and fewer as
      soon as one has an inherited title. */
  lemma {:induction false} OwnCountBelow(ratings: seq<Rating>, inherited: set<string>)
    ensures WeightOwn(ratings, inherited, Count) <= |ratings|
    ensures (exists i :: 0 <= i < |ratings| && TitleOf(ratings[i]) in inherited) ==>
              WeightOwn(ratings, inherited, Count) < |ratings|
  {
    if ratings != [] {
      var n := |ratings| - 1;
      OwnCountBelow(ratings[..n], inherited);
      if exists i :: 0 <= i < |ratings| && TitleOf(ratings[i]) in inherited {
        var i :| 0 <= i < |ratings| && TitleOf(ratings[i]) in inherited;
        if i < n {
          assert TitleOf(ratings[..n][i]) in inherited;
        }
      }
    }
  }

  /** The bucket sums of an accumulator that inherits nothing (a `Map`, or
      `Object.create(null)`): the counts add up to `ratings.length` and the totals to
      `totalRatings`, so the bars and the average card agree. */
  lemma BucketSums(ratings: seq<Rating>)
    ensures SumOver(ratings, Titles(ratings, {}), Count) == |ratings|
    ensures SumOver(ratings, Titles(ratings, {}), Total) == WeightAll(ratings, Total)
  {
    TitlesSpec(ratings, {});
    BucketsCoverAll(ratings, {}, Titles(ratings, {}), Count);
    BucketsCoverAll(ratings, {}, Titles(ratings, {}), Total);
    NothingInherited(ratings, Count);
    NothingInherited(ratings, Total);
    CountAll(ratings);
  }

  /** The page's `{}` accumulator: a rating for an event titled after an
      `Object.prototype` member (such as "constructor" or "__proto__") gets no bucket, so
      the bucket counts fall short of `ratings.length`. */
  lemma PrototypeTitleLost(ratings: seq<Rating>, i: int)
    requires 0 <= i < |ratings| && TitleOf(ratings[i]) in ObjectPrototypeNames
    ensures TitleOf(ratings[i]) !in Titles(ratings, ObjectPrototypeNames)
    ensures SumOver(ratings, Titles(ratings, ObjectPrototypeNames), Count) < |ratings|
  {
    TitlesSpec(ratings, ObjectPrototypeNames);
    BucketsCoverAll(ratings, ObjectPrototypeNames, Titles(ratings, ObjectPrototypeNames), Count);
    OwnCountBelow(ratings, ObjectPrototypeNames);
  }

  /** Ratings with a missing or empty title share the bucket of an event titled
      "Unknown". */
  lemma UnknownMerges(a: Rating, b: Rating)
    requires a.title.GetOr("") == "" && b.title == Some("Unknown")
    ensures TitleOf(a) == TitleOf(b)
  {
  }

  // ---------------------------------------------------------------------------
  // Chart series

  /** `name.substring(0, 15)`. */
  function Label(name: string): (r: string)
    ensures |r| <= 15 && r <= name
    ensures |name| <= 15 ==> r == name
  {
    if |name| <= 15 then name else name[..15]
  }

  /** One ratings bar: the label and the bucket behind its average. */
  datatype RatingBar = RatingBar(name: string, bucket: Bucket)

  function BarOf(ratings: seq<Rating>): string -> RatingBar {
    (t: string) => RatingBar(Label(t), Bucket(WeightWith(ratings, t, Total), WeightWith(ratings, t, Count)))
  }

  /** `Object.entries(ratingsByEvent).map(...)`, in key insertion order, for an
      accumulator that inherits `inherited`: only own keys are entries. */
  function RatingBars(ratings: seq<Rating>, inherited: set<string>): (r: seq<RatingBar>)
    ensures |r| == |Titles(ratings, inherited)|
    ensures forall i :: 0 <= i < |r| ==>
              var t := Titles(ratings, inherited)[i];
              r[i] == RatingBar(Label(t), Bucket(WeightWith(ratings, t, Total), WeightWith(ratings, t, Count)))
  {
    Seqs.Map(Titles(ratings, inherited), BarOf(ratings))
  }

  /** On the page as written, a rating for an event titled "constructor" draws no bar at
      all. */
  lemma ConstructorTitleNoBar(eventId: string, score: int)
    ensures RatingBars([Rating(eventId, score, Some("constructor"))], ObjectPrototypeNames) == []
    ensures |RatingBars([Rating(eventId, score, Some("constructor"))], {})| == 1
  {
    var r := Rating(eventId, score, Some("constructor"));
    assert [r][..0] == [];
    assert TitleOf(r) == "constructor";
    assert Titles([r], ObjectPrototypeNames) == [];
    assert Titles([r], {}) == ["constructor"];
  }

  /** Two events whose titles agree on their first 15 characters get two bars under one
      label, since bucketing uses the whole title. */
  lemma SameLabelTwoBars()
    ensures var ratings := [Rating("e1", 4, Some("Annual Tech Fest 2024")), Rating("e2", 5, Some("Annual Tech Fest 2025"))];
            var bars := RatingBars(ratings, ObjectPrototypeNames);
            |bars| == 2 && bars[0].name == bars[1].name
  {
    var a := Rating("e1", 4, Some("Annual Tech Fest 2024"));
    var b := Rating("e2", 5, Some("Annual Tech Fest 2025"));
    var ratings := [a, b];
    assert TitleOf(a) != TitleOf(b) by {
      assert TitleOf(a)[20] != TitleOf(b)[20];
    }
    assert TitleOf(a) !in ObjectPrototypeNames && TitleOf(b) !in ObjectPrototypeNames by {
      assert |TitleOf(a)| == |TitleOf(b)| == 21;
    }
    assert ratings[..1] == [a];
    assert [a][..0] == [];
    assert Titles([a], ObjectPrototypeNames) == [TitleOf(a)];
    assert Titles(ratings, ObjectPrototypeNames) == [TitleOf(a), TitleOf(b)];
    assert Label(TitleOf(a)) == Label(TitleOf(b)) by {
      assert TitleOf(a)[..15] == TitleOf(b)[..15];
    }
  }

  /** An attendance row as fetched (newest first) with its exact count, null as `None`. */
  datatype EventCount = EventCount(title: string, count: Option<nat>)

  datatype Point = Point(name: string, value: nat)

  function AttendancePoint(e: EventCount): Point {
    Point(Label(e.title), e.count.GetOr(0))
  }

  /** `attendance.reverse()` of the mapped rows: oldest first, a null count as 0. */
  function AttendanceSeries(events: seq<EventCount>): (r: seq<Point>)
    ensures |r| == |events|
    ensures forall i :: 0 <= i < |r| ==> r[i] == AttendancePoint(events[|events| - 1 - i])
  {
    Seqs.Reverse(Seqs.Map(events, AttendancePoint))
  }

  function ClubPoint(c: EventCount): Point {
    Point(c.title, c.count.GetOr(0))
  }

  predicate HasMembers(p: Point) { p.value > 0 }

  /** `memberships.filter(m => m.value > 0)` of the mapped clubs. */
  function ClubSeries(clubs: seq<EventCount>): (r: seq<Point>)
    ensures forall i :: 0 <= i < |r| ==> r[i].value > 0
  {
    Seqs.Filter(Seqs.Map(clubs, ClubPoint), HasMembers)
  }

  /** A club appears exactly when it has members, and the series keeps the fetched order. */
  lemma ClubSeriesSpec(clubs: seq<EventCount>, p: Point)
    ensures p in ClubSeries(clubs) <==> p in Seqs.Map(clubs, ClubPoint) && p.value > 0
    ensures Seqs.IsSubsequence(ClubSeries(clubs), Seqs.Map(clubs, ClubPoint))
  {
    Seqs.FilterMembership(Seqs.Map(clubs, ClubPoint), HasMembers, p);
    Seqs.FilterIsSubsequence(Seqs.Map(clubs, ClubPoint), HasMembers);
  }
}
