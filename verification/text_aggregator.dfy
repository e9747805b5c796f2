/** Building the classifier input of one conversation: `analyze_chat` fetches
    at most ten of the newest messages, keeps the ones whose text is non-empty,
    strips each, and the analysis thread joins them with `" [SEP] "`. */
module TextAggregator {
  import opened Wrappers
  import Selection

  /** A fetched message. Its text is absent for messages without a body. */
  datatype Message = Message(text: Option<string>)

  /** How many of the newest messages `analyze_chat` asks for. */
  const Window: nat := 10

  /** The separator placed between texts in the classifier input. */
  const Sep: string := " [SEP] "

  /** Python's `str.isspace()` on one character, the test `str.strip()`
      applies: tab to carriage return, the separators 0x1C to 0x1F, space,
      and the Unicode whitespace characters. */
  predicate IsSpace(c: char)
  {
    var n := c as int;
    || 0x09 <= n <= 0x0D
    || 0x1C <= n <= 0x20
    || n == 0x85 || n == 0xA0 || n == 0x1680
    || 0x2000 <= n <= 0x200A
    || n == 0x2028 || n == 0x2029 || n == 0x202F || n == 0x205F || n == 0x3000
  }

  /** Every character of `s` from `lo` up to `hi` is whitespace. */
  predicate SpaceBetween(s: string, lo: int, hi: int)
  {
    forall k :: lo <= k < hi && 0 <= k < |s| ==> IsSpace(s[k])
  }

  predicate AllSpace(s: string)
  {
    SpaceBetween(s, 0, |s|)
  }

  /** Where the text of `s` starts when scanning forward from `i`: the first
      position at or after `i` that is not whitespace, or the end. */
  function SkipSpaceForward(s: string, i: nat): (n: nat)
    requires i <= |s|
    ensures i <= n <= |s|
    ensures SpaceBetween(s, i, n)
    ensures n < |s| ==> !IsSpace(s[n])
    decreases |s| - i
  {
    if i < |s| && IsSpace(s[i]) then SkipSpaceForward(s, i + 1) else i
  }

  /** Where the text of `s` ends when scanning backward from `j` but not past
      `lo`: just after the last position before `j` that is not whitespace,
      or `lo`. */
  function SkipSpaceBackward(s: string, lo: nat, j: nat): (n: nat)
    requires lo <= j <= |s|
    ensures lo <= n <= j
    ensures SpaceBetween(s, n, j)
    ensures n > lo ==> !IsSpace(s[n - 1])
    decreases j
  {
    if j > lo && IsSpace(s[j - 1]) then SkipSpaceBackward(s, lo, j - 1) else j
  }

  /** `r` is what is left of `s` after cutting `i` characters from the front
      and the rest after `r` from the back, all of them whitespace. */
  predicate TrimmedAt(s: string, r: string, i: nat)
  {
    && i + |r| <= |s|
    && s[i..i + |r|] == r
    && SpaceBetween(s, 0, i)
    && SpaceBetween(s, i + |r|, |s|)
  }

  /** Python's `str.strip()`: `s` without its leading and trailing whitespace. */
  function Strip(s: string): (r: string)
    ensures |r| <= |s|
  {
    var a := SkipSpaceForward(s, 0);
    s[a..SkipSpaceBackward(s, a, |s|)]
  }

  /** The result of `Strip` is the slice of `s` left once only whitespace has
      been cut from both ends, and it neither starts nor ends with whitespace. */
  lemma StripTrims(s: string)
    ensures exists i :: TrimmedAt(s, Strip(s), i)
    ensures |Strip(s)| > 0 ==> !IsSpace(Strip(s)[0]) && !IsSpace(Strip(s)[|Strip(s)| - 1])
  {
    var a := SkipSpaceForward(s, 0);
    var e := SkipSpaceBackward(s, a, |s|);
    var r := s[a..e];
    assert Strip(s) == r;
    assert TrimmedAt(s, r, a);
    if a < e {
      assert r[0] == s[a] && r[|r| - 1] == s[e - 1];
    }
  }

  /** Stripping leaves nothing exactly when the text is all whitespace. */
  lemma {:induction false} StripEmptyIff(s: string)
    ensures Strip(s) == [] <==> AllSpace(s)
  {
    var a := SkipSpaceForward(s, 0);
    var e := SkipSpaceBackward(s, a, |s|);
    assert |Strip(s)| == e - a;
  }

  /** A text that neither starts nor ends with whitespace is left as it is. */
  lemma {:induction false} StripKeepsUnpadded(s: string)
    requires |s| > 0 && !IsSpace(s[0]) && !IsSpace(s[|s| - 1])
    ensures Strip(s) == s
  {
    assert SkipSpaceForward(s, 0) == 0;
    assert SkipSpaceBackward(s, 0, |s|) == |s|;
    assert s[0..|s|] == s;
  }

  /** Stripping twice changes nothing more than stripping once. */
  lemma {:induction false} StripIdempotent(s: string)
    ensures Strip(Strip(s)) == Strip(s)
  {
    StripTrims(s);
    if Strip(s) != [] {
      StripKeepsUnpadded(Strip(s));
    }
  }

  /** The truthiness test of the comprehension: the text exists and is
      non-empty. Whitespace-only texts pass it. */
  predicate HasText(m: Message)
  {
    m.text.Some? && m.text.value != ""
  }

  /** The messages `iter_messages(..., limit=10)` yields from a history held
      newest first. */
  function FetchWindow(history: seq<Message>): (w: seq<Message>)
    ensures |w| <= Window
    ensures |w| == if |history| < Window then |history| else Window
    ensures w == history[..|w|]
  {
    if |history| < Window then history else history[..Window]
  }

  /** The texts `analyze_chat` collects from the fetched messages: the
      stripped text of every message that has one, in fetch order. */
  function Texts(w: seq<Message>): (texts: seq<string>)
    ensures |texts| <= |w|
    decreases |w|
  {
    if |w| == 0 then []
    else
      var front := Texts(w[..|w| - 1]);
      var m := w[|w| - 1];
      if HasText(m) then front + [Strip(m.text.value)] else front
  }

  /** Collecting from one more (older) message appends its stripped text when
      it has one and changes nothing otherwise. */
  lemma {:induction false} TextsSnoc(w: seq<Message>, m: Message)
    ensures Texts(w + [m]) == if HasText(m) then Texts(w) + [Strip(m.text.value)] else Texts(w)
  {
    assert (w + [m])[..|w + [m]| - 1] == w;
  }

  /** The texts are the stripped texts of the selected messages, one for one. */
  lemma {:induction false} TextsOfSelection(w: seq<Message>)
    ensures |Texts(w)| == |Selection.Filter(w, HasText)|
    ensures forall k :: 0 <= k < |Texts(w)| ==>
      Texts(w)[k] == Strip(Selection.Filter(w, HasText)[k].text.value)
    decreases |w|
  {
    if |w| > 0 {
      var front := w[..|w| - 1];
      TextsOfSelection(front);
      Selection.FilterSnoc(front, w[|w| - 1], HasText);
      assert front + [w[|w| - 1]] == w;
    }
  }

  /** Text `k` is the stripped text of the `k`-th fetched message that has
      one; with `IndicesComplete`, no message with text is skipped. */
  lemma {:induction false} TextsSelect(w: seq<Message>)
    ensures |Texts(w)| == |Selection.Indices(w, HasText)|
    ensures forall k :: 0 <= k < |Texts(w)| ==>
      var ix := Selection.Indices(w, HasText);
      ix[k] < |w| && HasText(w[ix[k]]) && Texts(w)[k] == Strip(w[ix[k]].text.value)
  {
    TextsOfSelection(w);
    Selection.FilterSelects(w, HasText);
  }

  /** The collected texts are empty exactly when no fetched message has text. */
  lemma {:induction false} TextsEmptyIff(w: seq<Message>)
    ensures Texts(w) == [] <==> forall i :: 0 <= i < |w| ==> !HasText(w[i])
  {
    TextsOfSelection(w);
    Selection.FilterEmptyIff(w, HasText);
  }

  /** `' [SEP] '.join(texts)`. */
  function Join(texts: seq<string>): (s: string)
    decreases |texts|
  {
    if |texts| == 0 then ""
    else if |texts| == 1 then texts[0]
    else Join(texts[..|texts| - 1]) + Sep + texts[|texts| - 1]
  }

  /** The total length of the texts. */
  function TotalLength(texts: seq<string>): nat
    decreases |texts|
  {
    if |texts| == 0 then 0 else TotalLength(texts[..|texts| - 1]) + |texts[|texts| - 1]|
  }

  /** Where text `k` starts in the joined string: after the texts before it
      and one separator for each of them. */
  function Offset(texts: seq<string>, k: nat): nat
    requires k <= |texts|
  {
    TotalLength(texts[..k]) + k * |Sep|
  }

  /** The joined string is made of the texts and one separator between each
      neighbouring pair, nothing more. */
  lemma {:induction false} JoinLength(texts: seq<string>)
    requires |texts| > 0
    ensures |Join(texts)| == TotalLength(texts) + (|texts| - 1) * |Sep|
    decreases |texts|
  {
    if |texts| > 1 {
      var front := texts[..|texts| - 1];
      JoinLength(front);
      assert TotalLength(texts) == TotalLength(front) + |texts[|texts| - 1]|;
    } else {
      assert texts[..0] == [];
    }
  }

  /** A slice that lies inside the first part of a concatenation is a slice
      of that part. */
  lemma SliceOfFront(x: string, y: string, i: nat, j: nat)
    requires i <= j <= |x|
    ensures (x + y)[i..j] == x[i..j]
  {
  }

  /** The second part of a concatenation is the slice after the first. */
  lemma SliceOfBack(x: string, y: string)
    ensures (x + y)[|x|..|x| + |y|] == y
  {
  }

  /** Joining one more text appends a separator and that text. */
  lemma JoinSnoc(texts: seq<string>)
    requires |texts| > 1
    ensures Join(texts) == Join(texts[..|texts| - 1]) + Sep + texts[|texts| - 1]
    ensures |Join(texts[..|texts| - 1])| == Offset(texts, |texts| - 1) - |Sep|
  {
    var front := texts[..|texts| - 1];
    JoinLength(front);
    assert texts[..|texts| - 1] == front;
    assert (|texts| - 1) * |Sep| == (|texts| - 2) * |Sep| + |Sep|;
  }

  /** Text `k` sits in the joined string at its offset, preceded by a
      separator unless it is the first. */
  predicate PlacedAt(texts: seq<string>, k: nat)
    requires k < |texts|
  {
    var o := Offset(texts, k);
    && o + |texts[k]| <= |Join(texts)|
    && Join(texts)[o..o + |texts[k]|] == texts[k]
    && (k > 0 ==> o >= |Sep| && Join(texts)[o - |Sep|..o] == Sep)
  }

  /** The last text is placed after the joined front and one separator. */
  lemma PlacedLast(texts: seq<string>)
    requires |texts| > 1
    ensures PlacedAt(texts, |texts| - 1)
  {
    var k := |texts| - 1;
    var joined := Join(texts[..k]);
    JoinSnoc(texts);
    SliceOfBack(joined + Sep, texts[k]);
    SliceOfFront(joined + Sep, texts[k], |joined|, |joined| + |Sep|);
    SliceOfBack(joined, Sep);
  }

  /** A text placed in the join of the front stays placed when one more text
      is joined. */
  lemma PlacedEarlier(texts: seq<string>, k: nat)
    requires k < |texts| - 1
    requires PlacedAt(texts[..|texts| - 1], k)
    ensures PlacedAt(texts, k)
  {
    var n := |texts|;
    var front := texts[..n - 1];
    var joined := Join(front);
    JoinSnoc(texts);
    assert front[..k] == texts[..k];
    var o := Offset(texts, k);
    assert Offset(front, k) == o;
    assert Join(texts) == joined + (Sep + texts[n - 1]);
    SliceOfFront(joined, Sep + texts[n - 1], o, o + |texts[k]|);
    if k > 0 {
      SliceOfFront(joined, Sep + texts[n - 1], o - |Sep|, o);
    }
  }

  /** Every text appears in the joined string, in order, at its offset, and is
      preceded by a separator unless it is the first. */
  lemma {:induction false} JoinContains(texts: seq<string>, k: nat)
    requires k < |texts|
    ensures Offset(texts, k) + |texts[k]| <= |Join(texts)|
    ensures Join(texts)[Offset(texts, k)..Offset(texts, k) + |texts[k]|] == texts[k]
    ensures k > 0 ==> Join(texts)[Offset(texts, k) - |Sep|..Offset(texts, k)] == Sep
    decreases |texts|
  {
    if |texts| == 1 {
      assert texts[..0] == [];
    } else if k == |texts| - 1 {
      PlacedLast(texts);
    } else {
      JoinContains(texts[..|texts| - 1], k);
      PlacedEarlier(texts, k);
    }
  }
}
