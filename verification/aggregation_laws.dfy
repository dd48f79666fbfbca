/** Laws of `AgregateResponses` that relate several calls: the `Where`
    filter is the only thing the outcome depends on. */
module AggregationLaws {
  import opened Messages
  import opened Aggregation

  lemma {:induction false} RespondingAppend(xs: seq<Message>, ys: seq<Message>)
    ensures Responding(xs + ys) == Responding(xs) + Responding(ys)
    decreases |ys|
  {
    if |ys| == 0 {
      assert xs + ys == xs;
    } else {
      var ys' := ys[..|ys| - 1];
      var y := ys[|ys| - 1];
      assert (xs + ys)[..|xs + ys| - 1] == xs + ys';
      assert (xs + ys)[|xs + ys| - 1] == y;
      RespondingAppend(xs, ys');
    }
  }

  /** The filter keeps exactly the messages that carry a `Response`. */
  lemma {:induction false} RespondingContents(ms: seq<Message>)
    ensures forall m :: m in Responding(ms) <==> m in ms && HasResponse(m)
    decreases |ms|
  {
    if |ms| > 0 {
      var prefix := ms[..|ms| - 1];
      assert ms == prefix + [ms[|ms| - 1]];
      RespondingContents(prefix);
    }
  }

  /** Filtering twice keeps what filtering once kept. */
  lemma {:induction false} RespondingIdempotent(ms: seq<Message>)
    ensures Responding(Responding(ms)) == Responding(ms)
    decreases |ms|
  {
    if |ms| > 0 {
      var prefix := ms[..|ms| - 1];
      var m := ms[|ms| - 1];
      RespondingIdempotent(prefix);
      if HasResponse(m) {
        RespondingAppend(Responding(prefix), [m]);
        assert Responding([m]) == Responding([] + [m]);
        assert [m][..0] == [];
      }
    }
  }

  /** Dropping a trailing message without a `Response` changes nothing. */
  lemma AggregateDropSilentLast(ms: seq<Message>, m: Message)
    requires !HasResponse(m)
    ensures Aggregate(ms + [m]) == Aggregate(ms)
    ensures Responding(ms + [m]) == Responding(ms)
  {
  }

  /** Aggregation depends only on the Response-carrying messages in order. */
  lemma {:induction false} AggregateSameView(xs: seq<Message>, ys: seq<Message>)
    requires Responding(xs) == Responding(ys)
    ensures Aggregate(xs) == Aggregate(ys)
    decreases |xs| + |ys|
  {
    if |xs| > 0 && !HasResponse(xs[|xs| - 1]) {
      var xs' := xs[..|xs| - 1];
      assert xs == xs' + [xs[|xs| - 1]];
      AggregateDropSilentLast(xs', xs[|xs| - 1]);
      AggregateSameView(xs', ys);
    } else if |ys| > 0 && !HasResponse(ys[|ys| - 1]) {
      var ys' := ys[..|ys| - 1];
      assert ys == ys' + [ys[|ys| - 1]];
      AggregateDropSilentLast(ys', ys[|ys| - 1]);
      AggregateSameView(xs, ys');
    } else if |xs| > 0 && |ys| > 0 {
      var xs', x := xs[..|xs| - 1], xs[|xs| - 1];
      var ys', y := ys[..|ys| - 1], ys[|ys| - 1];
      assert xs == xs' + [x] && ys == ys' + [y];
      var rx, ry := Responding(xs') + [x], Responding(ys') + [y];
      assert Responding(xs) == rx && Responding(ys) == ry;
      assert x == rx[|rx| - 1] == ry[|ry| - 1] == y;
      assert Responding(xs') == rx[..|rx| - 1] == ry[..|ry| - 1] == Responding(ys');
      AggregateSameView(xs', ys');
      AggregateLastStep(xs', ys', x);
    }
  }

  /** Appending one Response-carrying message acts on the previous winner only. */
  lemma AggregateLastStep(xs: seq<Message>, ys: seq<Message>, m: Message)
    requires HasResponse(m)
    requires Aggregate(xs) == Aggregate(ys)
    ensures Aggregate(xs + [m]) == Aggregate(ys + [m])
  {
  }

  /** The `Where` clause: aggregating the filtered list gives the same result. */
  lemma {:induction false} AggregateSeesOnlyResponding(ms: seq<Message>)
    ensures Aggregate(Responding(ms)) == Aggregate(ms)
  {
    RespondingIdempotent(ms);
    AggregateSameView(Responding(ms), ms);
  }

  /** Inserting or removing a message without a `Response` anywhere in the
      gathered list leaves the outcome, winner or exception, unchanged. */
  lemma {:induction false} AggregateIgnoresSilent(before: seq<Message>, m: Message, after: seq<Message>)
    requires !HasResponse(m)
    ensures Aggregate(before + [m] + after) == Aggregate(before + after)
  {
    RespondingAppend(before + [m], after);
    RespondingAppend(before, [m]);
    RespondingAppend(before, after);
    assert [m][..0] == [];
    AggregateSameView(before + [m] + after, before + after);
  }
}
