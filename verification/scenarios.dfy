/** Concrete message lists that pin down how the aggregation behaves. */
module AggregationScenarios {
  import opened Wrappers
  import opened TextAggregator
  import Selection

  /** Of three messages where only the middle one lacks text, the texts of
      the outer two are collected, stripped, in order. */
  lemma KeepsOuterOfThree(a: Message, b: Message, c: Message)
    requires HasText(a) && !HasText(b) && HasText(c)
    ensures Texts([a, b, c]) == [Strip(a.text.value), Strip(c.text.value)]
  {
    TextsSnoc([], a);
    assert [] + [a] == [a];
    TextsSnoc([a], b);
    assert [a] + [b] == [a, b];
    TextsSnoc([a, b], c);
    assert [a, b] + [c] == [a, b, c];
  }

  /** Of `["hi", "", "send money please"]` the empty message is dropped and
      the other two texts are kept, in order. */
  lemma EmptyTextIsDropped(h: seq<Message>)
    requires h == [Message(Some("hi")), Message(Some("")), Message(Some("send money please"))]
    ensures Texts(FetchWindow(h)) == ["hi", "send money please"]
  {
    assert FetchWindow(h) == h;
    KeepsOuterOfThree(h[0], h[1], h[2]);
    StripKeepsUnpadded("hi");
    StripKeepsUnpadded("send money please");
  }

  /** The classifier input for that conversation is the two texts around one
      separator. */
  lemma EmptyTextIsNotJoined(h: seq<Message>)
    requires h == [Message(Some("hi")), Message(Some("")), Message(Some("send money please"))]
    ensures Join(Texts(FetchWindow(h))) == "hi" + Sep + "send money please"
  {
    EmptyTextIsDropped(h);
    var t: seq<string> := ["hi", "send money please"];
    assert t[..1] == ["hi"];
  }

}

/** Concrete conversations that pin down when an analysis is started. */
module ScanScenarios {
  import opened Wrappers
  import opened TextAggregator
  import opened ScanCoordinator

  /** A whitespace-only text passes the truthiness test, strips to the empty
      string, and still starts an analysis whose input is empty. */
  lemma WhitespaceOnlyTextIsClassified(source: Result<seq<Dialog>>)
    requires source == Ok([Dialog("a", true, Ok([Message(Some("  "))]))])
    ensures AnalyzeChat(source, "a") == Dispatched(Task("a", [""]))
    ensures Join(AnalyzeChat(source, "a").task.texts) == ""
  {
  }

  /** The ten-message window is cut before texts are filtered: ten newest
      messages without text hide an older message that has some. */
  lemma WindowComesBeforeFilter(h: seq<Message>)
    requires h == seq(10, _ => Message(None)) + [Message(Some("hi"))]
    ensures AnalyzeChat(Ok([Dialog("a", true, Ok(h))]), "a") == NoText
  {
    assert FetchWindow(h) == seq(10, _ => Message(None));
    TextsEmptyIff(FetchWindow(h));
  }
}
