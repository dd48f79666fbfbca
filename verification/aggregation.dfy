/** `AgregateResponses`: keep the messages that carry a `Response` property,
    order them by that property unboxed to `int`, and take the first one.
    `OrderBy` is a stable sort, so the first element of the ordering is the
    earliest message, in gather order, whose key is minimal: a stable argmin.
    `OrderBy(...).FirstOrDefault()` walks the filtered messages in order,
    unboxes every key, and replaces its candidate only on a strictly smaller
    key; `SelectIndex` is that walk, written as recursion on the prefix. */
module Aggregation {
  import opened Wrappers
  import opened Messages

  /** Every `Response` in the list unboxes to `int`. */
  ghost predicate AllKeysCast(ms: seq<Message>) {
    forall i :: 0 <= i < |ms| ==> KeyCasts(ms[i])
  }

  /** No message in the list carries a `Response` property. */
  ghost predicate NoneResponds(ms: seq<Message>) {
    forall i :: 0 <= i < |ms| ==> !HasResponse(ms[i])
  }

  /** Position `w` holds the winner: it carries a `Response` whose key is no
      greater than any other key, and strictly smaller than the key of every
      earlier Response-carrying message. */
  ghost predicate IsStableArgMin(ms: seq<Message>, w: nat) {
    && w < |ms|
    && HasResponse(ms[w])
    && AllKeysCast(ms)
    && (forall j :: 0 <= j < |ms| && HasResponse(ms[j]) ==> Key(ms[w]) <= Key(ms[j]))
    && (forall j :: 0 <= j < w && HasResponse(ms[j]) ==> Key(ms[w]) < Key(ms[j]))
  }

  /** Position `i` holds the first message whose `Response` cannot be unboxed. */
  ghost predicate IsFirstCastFailure(ms: seq<Message>, i: nat) {
    && i < |ms|
    && !KeyCasts(ms[i])
    && forall j :: 0 <= j < i ==> KeyCasts(ms[j])
  }

  /** The index of the aggregated response, `None` for `null`. */
  function SelectIndex(ms: seq<Message>): (r: Result<Option<nat>, Failure>)
    ensures r.Success? <==> AllKeysCast(ms)
    ensures r.Failure? ==> exists i: nat :: IsFirstCastFailure(ms, i) && SortKey(ms[i]) == Failure(r.error)
    ensures r == Success(None) <==> AllKeysCast(ms) && NoneResponds(ms)
    ensures r.Success? && r.value.Some? ==> IsStableArgMin(ms, r.value.value)
    decreases |ms|
  {
    if |ms| == 0 then Success(None)
    else
      var prefix := ms[..|ms| - 1];
      var m := ms[|ms| - 1];
      assert forall i :: 0 <= i < |prefix| ==> prefix[i] == ms[i];
      var best :- SelectIndex(prefix);
      if !HasResponse(m) then Success(best)
      else
        var k :- SortKey(m);
        match best
        case None => Success(Some(|ms| - 1))
        case Some(b) => if k < Key(prefix[b]) then Success(Some(|ms| - 1)) else Success(Some(b))
  }

  /** `AgregateResponses`: the winning message, `None` when no message carries
      a `Response`, or the exception the first failing unboxing raises. */
  function Aggregate(ms: seq<Message>): (r: Result<Option<Message>, Failure>)
    ensures r.Success? <==> AllKeysCast(ms)
    ensures r.Failure? ==> exists i: nat :: IsFirstCastFailure(ms, i) && SortKey(ms[i]) == Failure(r.error)
    ensures r == Success(None) <==> AllKeysCast(ms) && NoneResponds(ms)
    ensures r.Success? && r.value.Some? ==>
      && r.value.value in ms
      && HasResponse(r.value.value)
      && (forall j :: 0 <= j < |ms| && HasResponse(ms[j]) ==> Key(r.value.value) <= Key(ms[j]))
      && (exists w: nat :: IsStableArgMin(ms, w) && ms[w] == r.value.value)
    ensures forall w: nat :: IsStableArgMin(ms, w) ==> r == Success(Some(ms[w]))
  {
    var best :- SelectIndex(ms);
    match best
    case None => Success(None)
    case Some(w) => Success(Some(ms[w]))
  }

  /** `Where(msg => msg.ApplicationProperties.ContainsKey("Response"))`. */
  function Responding(ms: seq<Message>): (r: seq<Message>)
    ensures |r| <= |ms|
    ensures forall i :: 0 <= i < |r| ==> HasResponse(r[i])
    ensures r == [] <==> NoneResponds(ms)
    decreases |ms|
  {
    if |ms| == 0 then []
    else
      var prefix := ms[..|ms| - 1];
      var m := ms[|ms| - 1];
      assert ms == prefix + [m];
      if HasResponse(m) then Responding(prefix) + [m] else Responding(prefix)
  }
}
