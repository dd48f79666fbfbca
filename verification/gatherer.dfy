/** The top-level flow: gather a fixed number of messages from the receiver,
    aggregate them, and build the reply text. The receiver is the sequence of
    messages it would hand out, in receive order; settling a message is an
    event in a log. */
module Gatherer {
  import opened Wrappers
  import opened Messages
  import Decimal
  import Aggregation
  import Summary

  /** The loop stops once this many messages are gathered. */
  const GatherCount: nat := 3

  /** What the receiver observes, in order. */
  datatype ReceiverEvent =
    | Received(message: Message)       // `ReceiveMessageAsync` returned it
    | Completed(lockToken: nat)        // `CompleteMessageAsync` settled it

  /** `GatherResponsesAsync`: receive one message, append it, complete it,
      until `GatherCount` messages are held. */
  method Gather(incoming: seq<Message>) returns (gathered: seq<Message>, log: seq<ReceiverEvent>)
    requires GatherCount <= |incoming|
    ensures gathered == incoming[..GatherCount]
    ensures |log| == 2 * GatherCount
    ensures forall i :: 0 <= i < GatherCount ==>
      log[2 * i] == Received(gathered[i]) && log[2 * i + 1] == Completed(gathered[i].lockToken)
  {
    gathered := [];
    log := [];
    while |gathered| < GatherCount
      invariant |gathered| <= GatherCount
      invariant gathered == incoming[..|gathered|]
      invariant |log| == 2 * |gathered|
      invariant forall i :: 0 <= i < |gathered| ==>
        log[2 * i] == Received(gathered[i]) && log[2 * i + 1] == Completed(gathered[i].lockToken)
    {
      var response := incoming[|gathered|];
      log := log + [Received(response)];
      gathered := gathered + [response];
      log := log + [Completed(response.lockToken)];
    }
  }

  /** Aggregation followed by formatting: the text sent to the response queue,
      or the exception that prevents sending. */
  function Reply(gathered: seq<Message>): (r: Result<string, Failure>)
    ensures !Aggregation.AllKeysCast(gathered) ==> r.Failure?
    ensures !Aggregation.AllKeysCast(gathered) ==>
      exists i: nat :: Aggregation.IsFirstCastFailure(gathered, i) && SortKey(gathered[i]) == Failure(r.error)
    ensures Aggregation.AllKeysCast(gathered) && Aggregation.NoneResponds(gathered) ==>
      r == Success(Summary.NoResponseText)
    ensures r == Success(Summary.NoResponseText) ==> Aggregation.NoneResponds(gathered)
    ensures forall w: nat ::
      Aggregation.IsStableArgMin(gathered, w) && RecipientNameKey in gathered[w].properties ==>
        && r.Success?
        && var name := Render(gathered[w].properties[RecipientNameKey]);
           && r.value == Summary.WinnerText(name, Decimal.Format(Key(gathered[w]) as int))
           && ('`' !in name ==>
                 Summary.ReadSummary(r.value) ==
                   Some(Summary.Winner(name, Decimal.Format(Key(gathered[w]) as int))))
    ensures forall w: nat ::
      Aggregation.IsStableArgMin(gathered, w) && RecipientNameKey !in gathered[w].properties ==>
        r == Failure(KeyNotFound(RecipientNameKey))
  {
    var winner :- Aggregation.Aggregate(gathered);
    Summary.Summary(winner)
  }

  /** The program: gather, aggregate, and produce the outbound text. */
  method Run(incoming: seq<Message>) returns (log: seq<ReceiverEvent>, outbound: Result<string, Failure>)
    requires GatherCount <= |incoming|
    ensures |log| == 2 * GatherCount
    ensures forall i :: 0 <= i < GatherCount ==>
      log[2 * i] == Received(incoming[i]) && log[2 * i + 1] == Completed(incoming[i].lockToken)
    ensures outbound == Reply(incoming[..GatherCount])
  {
    var gathered;
    gathered, log := Gather(incoming);
    outbound := Reply(gathered);
  }
}

/** Worked examples of the whole pipeline over three gathered responses. */
module Scenarios {
  import opened Wrappers
  import opened Messages
  import Aggregation
  import Summary
  import Gatherer

  function Response(token: nat, name: string, score: int32): Message {
    Message(token, map[RecipientNameKey := StringValue(name), ResponseKey := IntValue(score)])
  }

  lemma BobText()
    ensures Summary.Summary(Some(Response(2, "bob", 95)))
      == Success("The best response was from `bob` with a response of `95`")
  {
    var m := Response(2, "bob", 95);
    assert Lookup(m, RecipientNameKey) == Success(StringValue("bob"));
    assert Lookup(m, ResponseKey) == Success(IntValue(95));
    NinetyFiveText();
    BobWinnerText();
  }

  lemma NinetyFiveText()
    ensures Render(IntValue(95)) == "95"
  {
  }

  lemma BobWinnerText()
    ensures Summary.WinnerText("bob", "95") == "The best response was from `bob` with a response of `95`"
  {
  }

  /** The lowest response wins, wherever it arrives. */
  lemma LowestResponseWins()
    ensures Gatherer.Reply([Response(1, "alice", 120), Response(2, "bob", 95), Response(3, "carol", 150)])
      == Success("The best response was from `bob` with a response of `95`")
  {
    var ms := [Response(1, "alice", 120), Response(2, "bob", 95), Response(3, "carol", 150)];
    assert Aggregation.IsStableArgMin(ms, 1);
    BobText();
  }

  /** On a tie the earlier response wins. */
  lemma EarliestOfTiedWins()
    ensures Gatherer.Reply([Response(1, "alice", 150), Response(2, "bob", 95), Response(3, "carol", 95)])
      == Success("The best response was from `bob` with a response of `95`")
  {
    var ms := [Response(1, "alice", 150), Response(2, "bob", 95), Response(3, "carol", 95)];
    assert Aggregation.IsStableArgMin(ms, 1);
    BobText();
  }
}
