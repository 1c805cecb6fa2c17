/** The event rating widget (src/components/EventRating.tsx): three pieces of state, the
    chosen rating, the hovered star and the review text, plus the user's existing rating
    row if one was loaded. Hover and click set the stars; submit refuses a zero rating
    and otherwise updates the existing row or inserts a new one. The backend's answers
    are parameters. The widget's state is what a render that completes sets up; the
    body's evaluation order, which decides whether the first render completes, is
    modelled at the end. */
module EventRating {
  import opened Wrappers

  /** An `event_ratings` row as loaded. */
  datatype StoredRating = StoredRating(id: string, rating: int, review: Option<string>)

  /** The write `handleSubmit` sends. */
  datatype Write =
    | NoWrite                                        // rating 0: "Please select a rating"
    | Update(id: string, rating: int, review: string)
    | Insert(eventId: string, userId: string, rating: int, review: string)

  /** `star <= (hoverRating || rating)`: the hovered star wins while there is one. */
  predicate StarFilled(star: int, hoverRating: int, rating: int) {
    star <= (if hoverRating != 0 then hoverRating else rating)
  }

  /** The filled stars are always the first ones: a star is filled only if every lower
      star is. */
  lemma FilledIsPrefix(star: int, lower: int, hoverRating: int, rating: int)
    requires lower <= star && StarFilled(star, hoverRating, rating)
    ensures StarFilled(lower, hoverRating, rating)
  {
  }

  /** The write a submit sends, given the current state. */
  function SubmitWrite(rating: int, review: string, existing: Option<StoredRating>,
                       eventId: string, userId: string): (w: Write)
    ensures w == NoWrite <==> rating == 0
    ensures w.Update? <==> rating != 0 && existing.Some?
    ensures w.Update? ==> w == Update(existing.value.id, rating, review)
    ensures w.Insert? ==> w == Insert(eventId, userId, rating, review)
  {
    if rating == 0 then NoWrite
    else if existing.Some? then Update(existing.value.id, rating, review)
    else Insert(eventId, userId, rating, review)
  }

  /** `disabled={loading || rating === 0}`. */
  predicate SubmitDisabled(loading: bool, rating: int) {
    loading || rating == 0
  }

  /** An enabled button never sends the refused write. */
  lemma EnabledButtonWrites(rating: int, review: string, existing: Option<StoredRating>,
                            eventId: string, userId: string)
    requires !SubmitDisabled(false, rating)
    ensures SubmitWrite(rating, review, existing, eventId, userId) != NoWrite
  {
  }

  function ButtonLabel(existing: Option<StoredRating>): (s: string)
    ensures s == "Update Rating" <==> existing.Some?
    ensures existing.None? ==> s == "Submit Rating"
  {
    if existing.Some? then "Update Rating" else "Submit Rating"
  }

  class Widget {
    var rating: int
    var hoverRating: int
    var review: string
    var existing: Option<StoredRating>

    /** The stars shown: star `s` (1 to 5) is filled. */
    predicate Filled(s: int)
      reads this
    {
      StarFilled(s, hoverRating, rating)
    }

    constructor ()
      ensures rating == 0 && hoverRating == 0 && review == "" && existing.None?
    {
      rating := 0;
      hoverRating := 0;
      review := "";
      existing := None;
    }

    /** `fetchExistingRating`: a found row is remembered and its rating and review copied
        in, a missing review as ""; no row changes nothing. */
    method Load(data: Option<StoredRating>)
      modifies this
      ensures data.Some? ==>
                existing == data && rating == data.value.rating &&
                review == data.value.review.GetOr("") && hoverRating == old(hoverRating)
      ensures data.None? ==>
                existing == old(existing) && rating == old(rating) &&
                review == old(review) && hoverRating == old(hoverRating)
    {
      if data.Some? {
        existing := data;
        rating := data.value.rating;
        review := data.value.review.GetOr("");
      }
    }

    /** `onClick={() => setRating(star)}`. */
    method Click(star: int)
      requires 1 <= star <= 5
      modifies this
      ensures rating == star
      ensures hoverRating == old(hoverRating) && review == old(review) && existing == old(existing)
    {
      rating := star;
    }

    /** `onMouseEnter={() => setHoverRating(star)}`. */
    method Hover(star: int)
      requires 1 <= star <= 5
      modifies this
      ensures hoverRating == star
      ensures rating == old(rating) && review == old(review) && existing == old(existing)
    {
      hoverRating := star;
    }

    /** `onMouseLeave={() => setHoverRating(0)}`. */
    method Leave()
      modifies this
      ensures hoverRating == 0
      ensures rating == old(rating) && review == old(review) && existing == old(existing)
    {
      hoverRating := 0;
    }

    /** `handleSubmit`: the write is sent unless the rating is 0; after a successful
        write the row is fetched again (`refetched`); a failed write changes nothing. */
    method Submit(eventId: string, userId: string, writeOk: bool, refetched: Option<StoredRating>)
      returns (w: Write)
      modifies this
      ensures w == SubmitWrite(old(rating), old(review), old(existing), eventId, userId)
      ensures w == NoWrite || !writeOk ==>
                rating == old(rating) && review == old(review) && existing == old(existing)
      ensures w != NoWrite && writeOk && refetched.Some? ==>
                existing == refetched && rating == refetched.value.rating &&
                review == refetched.value.review.GetOr("")
      ensures w != NoWrite && writeOk && refetched.None? ==>
                rating == old(rating) && review == old(review) && existing == old(existing)
      ensures hoverRating == old(hoverRating)
    {
      w := SubmitWrite(rating, review, existing, eventId, userId);
      if w == NoWrite || !writeOk {
        return;
      }
      Load(refetched);
    }
  }

  /** Clicking a star and moving the pointer away leaves exactly the stars up to it
      filled. */
  method ClickThenLeave(widget: Widget, star: int)
    requires 1 <= star <= 5
    modifies widget
    ensures forall s :: 1 <= s <= 5 ==> (widget.Filled(s) <==> s <= star)
  {
    widget.Hover(star);
    widget.Click(star);
    widget.Leave();
  }

  /** After the first rating is inserted and read back, the button offers an update and a
      second submit updates the same row instead of inserting another. */
  method RateTwice(widget: Widget, eventId: string, userId: string, first: int, second: int, row: StoredRating)
    returns (w1: Write, w2: Write)
    requires widget.existing.None? && 1 <= first <= 5 && 1 <= second <= 5
    requires row.rating == first
    modifies widget
    ensures w1.Insert? && w1.rating == first
    ensures w2 == Update(row.id, second, widget.review)
    ensures ButtonLabel(widget.existing) == "Update Rating"
  {
    widget.Click(first);
    w1 := widget.Submit(eventId, userId, true, Some(row));
    widget.Click(second);
    w2 := widget.Submit(eventId, userId, true, Some(StoredRating(row.id, second, Some(widget.review))));
  }

  // ---------------------------------------------------------------------------
  // The first render

  /** One step of evaluating the component's body during a render: the initialisation
      of one of the body's `const` bindings, or an expression that reads a binding. */
  datatype Step = Bind(name: string) | Read(name: string)

  datatype Render = Rendered | ReferenceError(name: string)

  /** The names the body declares with `const`; their scope is the whole body. */
  function Declared(body: seq<Step>): set<string> {
    set i | 0 <= i < |body| && body[i].Bind? :: body[i].name
  }

  /** Evaluates `body` from the front; `bound` holds the bindings initialised so far.
      Reading a binding of the scope before its initialisation throws a ReferenceError
      (the temporal dead zone of `const`); other names can always be read. */
  function Run(body: seq<Step>, scope: set<string>, bound: set<string>): Render {
    if body == [] then Rendered
    else match body[0]
      case Bind(n) => Run(body[1..], scope, bound + {n})
      case Read(n) => if n in scope && n !in bound then ReferenceError(n) else Run(body[1..], scope, bound)
  }

  /** Every read of a scoped name comes after its binding (or the name is already bound). */
  predicate ReadsAfterBinds(body: seq<Step>, scope: set<string>, bound: set<string>) {
    forall i :: 0 <= i < |body| && body[i].Read? && body[i].name in scope ==>
      body[i].name in bound || exists j :: 0 <= j < i && body[j] == Bind(body[i].name)
  }

  /** The evaluation completes exactly when no scoped name is read before its binding. */
  lemma {:induction false} RunCompletesIff(body: seq<Step>, scope: set<string>, bound: set<string>)
    ensures Run(body, scope, bound) == Rendered <==> ReadsAfterBinds(body, scope, bound)
  {
    if body != [] {
      var tail := body[1..];
      match body[0]
      case Bind(n) =>
        RunCompletesIff(tail, scope, bound + {n});
        BindStep(body, scope, bound, n);
      case Read(n) =>
        if n in scope && n !in bound {
          assert !ReadsAfterBinds(body, scope, bound) by {
            assert body[0].Read? && body[0].name in scope && body[0].name !in bound;
          }
        } else {
          RunCompletesIff(tail, scope, bound);
          ReadStep(body, scope, bound, n);
        }
    }
  }

  lemma BindStep(body: seq<Step>, scope: set<string>, bound: set<string>, n: string)
    requires body != [] && body[0] == Bind(n)
    ensures ReadsAfterBinds(body, scope, bound) <==> ReadsAfterBinds(body[1..], scope, bound + {n})
  {
    var tail := body[1..];
    if ReadsAfterBinds(body, scope, bound) {
      forall i | 0 <= i < |tail| && tail[i].Read? && tail[i].name in scope
        ensures tail[i].name in bound + {n} || exists j :: 0 <= j < i && tail[j] == Bind(tail[i].name)
      {
        assert body[i + 1] == tail[i];
        if tail[i].name !in bound + {n} {
          var j :| 0 <= j < i + 1 && body[j] == Bind(tail[i].name);
          assert j != 0;
          assert tail[j - 1] == body[j];
        }
      }
    }
    if ReadsAfterBinds(tail, scope, bound + {n}) {
      forall i | 0 <= i < |body| && body[i].Read? && body[i].name in scope
        ensures body[i].name in bound || exists j :: 0 <= j < i && body[j] == Bind(body[i].name)
      {
        assert i != 0;
        assert tail[i - 1] == body[i];
        if body[i].name == n {
          assert body[0] == Bind(body[i].name);
        } else if body[i].name !in bound {
          var j :| 0 <= j < i - 1 && tail[j] == Bind(tail[i - 1].name);
          assert body[j + 1] == tail[j];
        }
      }
    }
  }

  lemma ReadStep(body: seq<Step>, scope: set<string>, bound: set<string>, n: string)
    requires body != [] && body[0] == Read(n) && (n !in scope || n in bound)
    ensures ReadsAfterBinds(body, scope, bound) <==> ReadsAfterBinds(body[1..], scope, bound)
  {
    var tail := body[1..];
    if ReadsAfterBinds(body, scope, bound) {
      forall i | 0 <= i < |tail| && tail[i].Read? && tail[i].name in scope
        ensures tail[i].name in bound || exists j :: 0 <= j < i && tail[j] == Bind(tail[i].name)
      {
        assert body[i + 1] == tail[i];
        if tail[i].name !in bound {
          var j :| 0 <= j < i + 1 && body[j] == Bind(tail[i].name);
          assert tail[j - 1] == body[j];
        }
      }
    }
    if ReadsAfterBinds(tail, scope, bound) {
      forall i | 0 <= i < |body| && body[i].Read? && body[i].name in scope
        ensures body[i].name in bound || exists j :: 0 <= j < i && body[j] == Bind(body[i].name)
      {
        if i != 0 {
          assert tail[i - 1] == body[i];
          if body[i].name !in bound {
            var j :| 0 <= j < i - 1 && tail[j] == Bind(tail[i - 1].name);
            assert body[j + 1] == tail[j];
          }
        }
      }
    }
  }

  /** A render of a body. */
  function Evaluate(body: seq<Step>): Render {
    Run(body, Declared(body), {})
  }

  /** The state bindings and `toast` at the top of `EventRating` (lines 17-22). */
  const StateBindings: seq<Step> :=
    [Bind("rating"), Bind("hoverRating"), Bind("review"), Bind("loading"), Bind("existingRating"), Bind("toast")]

  /** The returned JSX (lines 99-137) reads the state and the submit handler. */
  const JsxReads: seq<Step> :=
    [Read("hoverRating"), Read("rating"), Read("review"), Read("handleSubmit"), Read("loading"), Read("existingRating")]

  /** The body of `EventRating` in source order: the state bindings, the `useEffect` call
      whose dependency list `[fetchExistingRating]` (line 26) is evaluated on the spot,
      then the `const`s `fetchExistingRating` (line 28) and `handleSubmit` (line 43), then
      the JSX. */
  const AsWrittenBody: seq<Step> :=
    StateBindings + [Read("fetchExistingRating"), Bind("fetchExistingRating"), Bind("handleSubmit")] + JsxReads

  /** The same body with the `useEffect` call moved below the `useCallback` it depends
      on. */
  const ReorderedBody: seq<Step> :=
    StateBindings + [Bind("fetchExistingRating"), Read("fetchExistingRating"), Bind("handleSubmit")] + JsxReads

  function BoundNames(binds: seq<Step>): set<string> {
    set i | 0 <= i < |binds| && binds[i].Bind? :: binds[i].name
  }

  /** Evaluating a run of bindings adds their names to the bound ones. */
  lemma {:induction false} RunAfterBinds(binds: seq<Step>, rest: seq<Step>, scope: set<string>, bound: set<string>)
    requires forall i :: 0 <= i < |binds| ==> binds[i].Bind?
    ensures Run(binds + rest, scope, bound) == Run(rest, scope, bound + BoundNames(binds))
  {
    if binds != [] {
      assert (binds + rest)[0] == binds[0] && (binds + rest)[1..] == binds[1..] + rest;
      assert Run(binds + rest, scope, bound) == Run(binds[1..] + rest, scope, bound + {binds[0].name});
      RunAfterBinds(binds[1..], rest, scope, bound + {binds[0].name});
      assert BoundNames(binds) == {binds[0].name} + BoundNames(binds[1..]) by {
        forall x ensures x in BoundNames(binds) <==> x in {binds[0].name} + BoundNames(binds[1..]) {
          if x in BoundNames(binds) {
            var i :| 0 <= i < |binds| && binds[i].Bind? && binds[i].name == x;
            if i > 0 {
              assert binds[1..][i - 1] == binds[i];
            }
          }
          if x in BoundNames(binds[1..]) {
            var i :| 0 <= i < |binds[1..]| && binds[1..][i].Bind? && binds[1..][i].name == x;
            assert binds[i + 1] == binds[1..][i];
          }
        }
      }
      assert bound + {binds[0].name} + BoundNames(binds[1..]) == bound + BoundNames(binds);
    } else {
      assert binds + rest == rest && BoundNames(binds) == {};
      assert bound + BoundNames(binds) == bound;
    }
  }

  /** As written, the first render throws a ReferenceError on `fetchExistingRating`
      before `handleSubmit` exists: no star, text box or button is ever shown, so none of
      the widget's handlers can run. */
  lemma RenderAsWrittenThrows()
    ensures Evaluate(AsWrittenBody) == ReferenceError("fetchExistingRating")
    ensures !ReadsAfterBinds(AsWrittenBody, Declared(AsWrittenBody), {})
  {
    var b := AsWrittenBody;
    var scope := Declared(b);
    var rest := [Read("fetchExistingRating"), Bind("fetchExistingRating"), Bind("handleSubmit")] + JsxReads;
    assert b == StateBindings + rest;
    assert b[7] == Bind("fetchExistingRating");
    assert "fetchExistingRating" in scope;
    RunAfterBinds(StateBindings, rest, scope, {});
    assert "fetchExistingRating" !in BoundNames(StateBindings);
    RunCompletesIff(b, scope, {});
  }

  /** With the effect below the callback, every read follows its binding and the render
      completes, giving the widget whose state and handlers are modelled above. */
  lemma RenderReorderedCompletes()
    ensures Evaluate(ReorderedBody) == Rendered
  {
    var b := ReorderedBody;
    var names := {"rating", "hoverRating", "review", "loading", "existingRating", "fetchExistingRating", "handleSubmit"};
    assert ReadsAfterBinds(b, Declared(b), {}) by {
      forall i | 0 <= i < |b| && b[i].Read? && b[i].name in Declared(b)
        ensures exists j :: 0 <= j < i && b[j] == Bind(b[i].name)
      {
        if i == 7 {
          assert b[6] == Bind(b[i].name);
        } else if b[i].name == "handleSubmit" {
          assert b[8] == Bind(b[i].name);
        } else {
          assert b[i].name in names - {"fetchExistingRating", "handleSubmit"};
          var k := if b[i].name == "rating" then 0 else if b[i].name == "hoverRating" then 1
                   else if b[i].name == "review" then 2 else if b[i].name == "loading" then 3 else 4;
          assert b[k] == Bind(b[i].name);
        }
      }
    }
    RunCompletesIff(b, Declared(b), {});
  }
}
