/** The classifier's verdict as `predict_romance_scam` reports it. The model
    inference itself (tokenizer, network, softmax, argmax) lies outside the
    model: its outcome is an `Inference`, either the predicted class index or
    the message of the exception it raised. */
module Labels {

  /** What the inference call produced for one aggregated text. */
  datatype Inference = Predicted(pred: int) | Raised(error: string)

  /** The verdict on one conversation. */
  datatype Label = Normal | Scam | Error(message: string)

  /** The label string reported for a romance scam. */
  const ScamText: string := "로맨스 스캠"

  /** The label string reported for an ordinary conversation. */
  const NormalText: string := "정상 대화"

  /** The prefix of the label string reported when inference raised. */
  const ErrorPrefix: string := "오류 발생: "

  /** `predict_romance_scam`: class 1 is a scam, every other class is normal,
      and a raised exception becomes an error label carrying its message. */
  function Predict(outcome: Inference): (l: Label)
    ensures l == Scam <==> outcome == Predicted(1)
    ensures l.Normal? <==> outcome.Predicted? && outcome.pred != 1
    ensures l.Error? <==> outcome.Raised?
    ensures l.Error? ==> l.message == outcome.error
  {
    match outcome
    case Predicted(p) => if p == 1 then Scam else Normal
    case Raised(e) => Error(e)
  }

  /** The string the analysis thread emits for a label. */
  function LabelText(l: Label): (s: string)
    ensures l.Error? ==> |s| == |ErrorPrefix| + |l.message| && s[..|ErrorPrefix|] == ErrorPrefix
  {
    match l
    case Scam => ScamText
    case Normal => NormalText
    case Error(m) => ErrorPrefix + m
  }

  /** The alert test of `handle_analysis_result` compares label strings; it
      accepts exactly the scam label, never the normal one and never an error
      string, whatever the exception message says. */
  lemma ScamTextIdentifiesScam(l: Label)
    ensures LabelText(l) == ScamText <==> l == Scam
  {
    match l
    case Scam =>
    case Normal =>
      assert LabelText(l)[0] != ScamText[0];
    case Error(m) =>
      assert |LabelText(l)| > |ScamText|;
  }

  /** Distinct labels are reported as distinct strings, so the log keeps
      enough information to recover the verdict. */
  lemma LabelTextInjective(a: Label, b: Label)
    ensures LabelText(a) == LabelText(b) ==> a == b
  {
    if LabelText(a) == LabelText(b) {
      ScamTextIdentifiesScam(a);
      ScamTextIdentifiesScam(b);
      if a.Error? && b.Error? {
        assert a.message == LabelText(a)[|ErrorPrefix|..];
        assert b.message == LabelText(b)[|ErrorPrefix|..];
      } else if a.Normal? || b.Normal? {
        assert LabelText(a)[0] == LabelText(b)[0];
      }
    }
  }
}
