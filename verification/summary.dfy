/** The text of the outbound message built in `SendResponseAsync`, and a reader
    for it that recovers the recipient name and the response from the text. */
module Summary {
  import opened Wrappers
  import opened Messages

  const NoResponseText: string := "No response received"
  const WinnerPrefix: string := "The best response was from `"
  const WinnerMiddle: string := "` with a response of `"
  const WinnerSuffix: string := "`"

  /** The interpolated string for a winner, given the two inserted texts. */
  function WinnerText(name: string, response: string): string {
    WinnerPrefix + name + WinnerMiddle + response + WinnerSuffix
  }

  /** What an outbound text says. */
  datatype Reading = NoWinner | Winner(name: string, response: string)

  /** Position of the first `c` in `s`, or `|s|` when there is none. */
  function IndexOf(s: string, c: char): (r: nat)
    ensures r <= |s|
    ensures r < |s| ==> s[r] == c
    ensures forall i :: 0 <= i < r ==> s[i] != c
  {
    if |s| == 0 || s[0] == c then 0 else 1 + IndexOf(s[1..], c)
  }

  /** Reads an outbound text back: the recipient name runs up to the first
      backtick after the prefix, the response up to the closing backtick. */
  function ReadSummary(text: string): Option<Reading> {
    if text == NoResponseText then Some(NoWinner)
    else if
      && |WinnerPrefix| + |WinnerSuffix| <= |text|
      && text[..|WinnerPrefix|] == WinnerPrefix
      && text[|text| - 1..] == WinnerSuffix
    then
      var body := text[|WinnerPrefix|..|text| - 1];
      var k := IndexOf(body, '`');
      var rest := body[k..];
      if |WinnerMiddle| <= |rest| && rest[..|WinnerMiddle|] == WinnerMiddle
      then Some(Winner(body[..k], rest[|WinnerMiddle|..]))
      else None
    else None
  }

  /** A winner's text never reads as the no-response text, and it reads back
      as that winner provided the recipient name holds no backtick (the
      response text may hold any character). */
  lemma ReadWinnerText(name: string, response: string)
    ensures ReadSummary(WinnerText(name, response)) != Some(NoWinner)
    ensures '`' !in name ==> ReadSummary(WinnerText(name, response)) == Some(Winner(name, response))
  {
    var text := WinnerText(name, response);
    assert text[0] == 'T' && NoResponseText[0] == 'N';
    if '`' !in name {
      assert text[..|WinnerPrefix|] == WinnerPrefix;
      assert text[|text| - 1..] == WinnerSuffix;
      var body := text[|WinnerPrefix|..|text| - 1];
      assert body == name + WinnerMiddle + response;
      assert body[|name|] == '`';
      assert forall i :: 0 <= i < |name| ==> body[i] == name[i];
      assert IndexOf(body, '`') == |name|;
      var rest := body[|name|..];
      assert rest == WinnerMiddle + response;
      assert rest[..|WinnerMiddle|] == WinnerMiddle;
      assert rest[|WinnerMiddle|..] == response;
      assert body[..|name|] == name;
    }
  }

  /** The outbound text for the aggregated response, or the exception the
      dictionary indexer raises. */
  function Summary(winner: Option<Message>): (r: Result<string, Failure>)
    ensures winner.None? ==> r == Success(NoResponseText)
    ensures winner.Some? ==>
      (r.Success? <==> RecipientNameKey in winner.value.properties && ResponseKey in winner.value.properties)
    ensures winner.Some? && RecipientNameKey !in winner.value.properties ==>
      r == Failure(KeyNotFound(RecipientNameKey))
    ensures winner.Some? && RecipientNameKey in winner.value.properties && ResponseKey !in winner.value.properties ==>
      r == Failure(KeyNotFound(ResponseKey))
    ensures r.Success? ==> (ReadSummary(r.value) == Some(NoWinner) <==> winner.None?)
    ensures r.Success? && winner.Some? ==>
      var name := Render(winner.value.properties[RecipientNameKey]);
      var response := Render(winner.value.properties[ResponseKey]);
      && r.value == WinnerText(name, response)
      && ('`' !in name ==> ReadSummary(r.value) == Some(Winner(name, response)))
  {
    match winner
    case None => Success(NoResponseText)
    case Some(m) =>
      var name :- Lookup(m, RecipientNameKey);
      var response :- Lookup(m, ResponseKey);
      ReadWinnerText(Render(name), Render(response));
      Success(WinnerText(Render(name), Render(response)))
  }
}
