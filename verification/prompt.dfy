/** The "ask, validate, retry or cancel" protocol of index.ts (`trataPrompt`)
    and the menu selection built on it (`capturaPromptMenu`). The browser's
    `prompt` is a finite script of answers; running out of script is the
    `Exhausted` outcome, which the unbounded original never reaches. */
module Prompt {

  import opened Common
  import opened Validation

  /** `FnValidacao`. */
  type Validator = string -> RetornoValidacao

  const CancelHint := "\n* Clique em \"Cancelar\" para sair"
  const DefaultCancelMessage := "Operação cancelada"
  const RetryAlert := "Valor Inválido! Tente novamente"

  function RejectionAlert(mensagem: string): string {
    "Valor Inválido! " + mensagem
  }

  /** The text of the dialog: the hint is appended when cancelling is allowed. */
  function PromptShown(textoPrompt: string, permiteCancelar: bool): string {
    textoPrompt + (if permiteCancelar then CancelHint else "")
  }

  /** How one acquisition ends: a value, the thrown cancellation `Error`'s
      message, or no more scripted answers. */
  datatype Outcome = Accepted(value: string) | Cancelled(message: string) | Exhausted

  /** An outcome with what is left of the script and the dialogs shown. */
  datatype Acquisition = Acquisition(outcome: Outcome, rest: seq<Answer>, events: seq<Event>)

  /** The reply that was read last, which decided the outcome. */
  function LastRead(answers: seq<Answer>, rest: seq<Answer>): Answer
    requires |rest| < |answers|
  {
    answers[|answers| - |rest| - 1]
  }

  /** Reading on from a suffix of the script does not change which reply was
      read last. */
  lemma LastReadThroughSuffix(answers: seq<Answer>, mid: seq<Answer>, rest: seq<Answer>)
    requires IsSuffixOf(mid, answers) && IsSuffixOf(rest, mid)
    ensures |rest| < |mid| ==> LastRead(answers, rest) == LastRead(mid, rest)
  {
    if |rest| < |mid| {
      assert answers[|answers| - |rest| - 1] == mid[|mid| - |rest| - 1];
    }
  }

  /** `v` is what the acquisition may return for the reply `a`: the typed text
      itself, or the validator's `valor` when it accepts the text. */
  predicate Admits(validacaoFn: Option<Validator>, a: Answer, v: string) {
    && a.Some? && a.value != ""
    && match validacaoFn
       case None => v == a.value
       case Some(f) => f(a.value) == Sucesso(v)
  }

  /** `trataPrompt`. The recursive retries pass only four arguments, so from
      the second attempt on the cancellation message is the default one. */
  function TrataPrompt(textoPrompt: string, permiteCancelar: bool, valorDefault: Option<string>,
                       validacaoFn: Option<Validator>, mensagemCancelamento: Option<string>,
                       answers: seq<Answer>): (r: Acquisition)
    ensures IsSuffixOf(r.rest, answers)
    ensures r.outcome.Exhausted? ==> r.rest == []
    ensures !r.outcome.Exhausted? ==> |r.rest| < |answers|
    ensures r.outcome.Cancelled? ==> permiteCancelar && LastRead(answers, r.rest).None?
    ensures r.outcome.Cancelled? ==>
      r.outcome.message == (if |r.rest| == |answers| - 1 then mensagemCancelamento.GetOr(DefaultCancelMessage)
                            else DefaultCancelMessage)
    ensures r.outcome.Accepted? ==> Admits(validacaoFn, LastRead(answers, r.rest), r.outcome.value)
    decreases |answers|
  {
    if |answers| == 0 then Acquisition(Exhausted, [], [])
    else
      var valorPrompt := answers[0];
      var shown := Prompted(PromptShown(textoPrompt, permiteCancelar), valorDefault);
      if permiteCancelar && valorPrompt.None? then
        Acquisition(Cancelled(mensagemCancelamento.GetOr(DefaultCancelMessage)), answers[1..], [shown])
      else if valorPrompt.None? || valorPrompt.value == "" then
        var again := TrataPrompt(textoPrompt, permiteCancelar, valorDefault, validacaoFn, None, answers[1..]);
        SuffixTransitive(again.rest, answers[1..], answers);
        again.(events := [shown, Alerted(RetryAlert)] + again.events)
      else if validacaoFn.Some? then
        match validacaoFn.value(valorPrompt.value)
        case Erro(mensagem) =>
          var again := TrataPrompt(textoPrompt, permiteCancelar, valorDefault, validacaoFn, None, answers[1..]);
          SuffixTransitive(again.rest, answers[1..], answers);
          again.(events := [shown, Alerted(RejectionAlert(mensagem))] + again.events)
        case Sucesso(valor) =>
          Acquisition(Accepted(valor), answers[1..], [shown])
      else
        Acquisition(Accepted(valorPrompt.value), answers[1..], [shown])
  }

  /** Every reply read before the deciding one was retried, and the deciding
      one was not; when the script runs out, every reply was retried. */
  lemma TrataPromptRetriedBefore(
    textoPrompt: string, permiteCancelar: bool, valorDefault: Option<string>,
    validacaoFn: Option<Validator>, mensagemCancelamento: Option<string>,
    answers: seq<Answer>)
    ensures var r := TrataPrompt(textoPrompt, permiteCancelar, valorDefault, validacaoFn, mensagemCancelamento, answers);
      && (!r.outcome.Exhausted? ==> !Retried(LastRead(answers, r.rest), permiteCancelar, validacaoFn))
      && (forall j :: 0 <= j < |answers| - |r.rest| - 1 ==> Retried(answers[j], permiteCancelar, validacaoFn))
      && (r.outcome.Exhausted? ==> forall j :: 0 <= j < |answers| ==> Retried(answers[j], permiteCancelar, validacaoFn))
  {
    var r := TrataPrompt(textoPrompt, permiteCancelar, valorDefault, validacaoFn, mensagemCancelamento, answers);
    if exists j :: 0 <= j < |answers| && !Retried(answers[j], permiteCancelar, validacaoFn) {
      var k := FirstDecisive(answers, permiteCancelar, validacaoFn);
      TrataPromptSettlesAtFirstDecisive(textoPrompt, permiteCancelar, valorDefault, validacaoFn, mensagemCancelamento, answers, k);
      assert |r.rest| == |answers| - k - 1;
    } else {
      TrataPromptExhausts(textoPrompt, permiteCancelar, valorDefault, validacaoFn, mensagemCancelamento, answers);
    }
  }

  /** Every retry shows the same dialog: the same text and the same default. */
  lemma {:induction false} TrataPromptSamePrompt(
    textoPrompt: string, permiteCancelar: bool, valorDefault: Option<string>,
    validacaoFn: Option<Validator>, mensagemCancelamento: Option<string>,
    answers: seq<Answer>)
    ensures var r := TrataPrompt(textoPrompt, permiteCancelar, valorDefault, validacaoFn, mensagemCancelamento, answers);
      forall e | e in r.events && e.Prompted? :: e == Prompted(PromptShown(textoPrompt, permiteCancelar), valorDefault)
    decreases |answers|
  {
    if |answers| > 0 {
      TrataPromptSamePrompt(textoPrompt, permiteCancelar, valorDefault, validacaoFn, None, answers[1..]);
    }
  }

  // ---------------------------------------------------------------------------
  // An index-based description of the same protocol
  // ---------------------------------------------------------------------------

  /** Replies that send the protocol round again: `null` when cancelling is not
      allowed, the empty string, and text the validator rejects. */
  predicate Retried(a: Answer, permiteCancelar: bool, validacaoFn: Option<Validator>) {
    || (a.None? && !permiteCancelar)
    || (a.Some? && (a.value == "" || (validacaoFn.Some? && validacaoFn.value(a.value).Erro?)))
  }

  /** What a reply that is not retried decides. */
  function Settle(a: Answer, validacaoFn: Option<Validator>, mensagemCancelamento: Option<string>): Outcome
    requires a.Some? && validacaoFn.Some? ==> validacaoFn.value(a.value).Sucesso?
  {
    match a
    case None => Cancelled(mensagemCancelamento.GetOr(DefaultCancelMessage))
    case Some(v) =>
      if validacaoFn.Some? then Accepted(validacaoFn.value(v).valor) else Accepted(v)
  }

  /** The acquisition is decided by the first reply that is not retried; the
      caller's cancellation message survives only when that reply is the first. */
  lemma {:induction false} TrataPromptSettlesAtFirstDecisive(
    textoPrompt: string, permiteCancelar: bool, valorDefault: Option<string>,
    validacaoFn: Option<Validator>, mensagemCancelamento: Option<string>,
    answers: seq<Answer>, k: nat)
    requires k < |answers|
    requires forall j :: 0 <= j < k ==> Retried(answers[j], permiteCancelar, validacaoFn)
    requires !Retried(answers[k], permiteCancelar, validacaoFn)
    ensures var r := TrataPrompt(textoPrompt, permiteCancelar, valorDefault, validacaoFn, mensagemCancelamento, answers);
      && r.outcome == Settle(answers[k], validacaoFn, if k == 0 then mensagemCancelamento else None)
      && r.rest == answers[k + 1..]
      && |r.events| == 2 * k + 1
    decreases k
  {
    if k > 0 {
      assert Retried(answers[0], permiteCancelar, validacaoFn);
      var tail := answers[1..];
      forall j | 0 <= j < k - 1
        ensures Retried(tail[j], permiteCancelar, validacaoFn)
      {
        assert tail[j] == answers[j + 1];
      }
      TrataPromptSettlesAtFirstDecisive(textoPrompt, permiteCancelar, valorDefault, validacaoFn, None, tail, k - 1);
      assert tail[k - 1..] == answers[k..];
    }
  }

  /** When every reply is retried the script runs out: two dialogs per reply. */
  lemma {:induction false} TrataPromptExhausts(
    textoPrompt: string, permiteCancelar: bool, valorDefault: Option<string>,
    validacaoFn: Option<Validator>, mensagemCancelamento: Option<string>,
    answers: seq<Answer>)
    requires forall j :: 0 <= j < |answers| ==> Retried(answers[j], permiteCancelar, validacaoFn)
    ensures var r := TrataPrompt(textoPrompt, permiteCancelar, valorDefault, validacaoFn, mensagemCancelamento, answers);
      r.outcome == Exhausted && |r.events| == 2 * |answers|
    decreases |answers|
  {
    if |answers| > 0 {
      assert Retried(answers[0], permiteCancelar, validacaoFn);
      var tail := answers[1..];
      forall j | 0 <= j < |tail|
        ensures Retried(tail[j], permiteCancelar, validacaoFn)
      {
        assert tail[j] == answers[j + 1];
      }
      TrataPromptExhausts(textoPrompt, permiteCancelar, valorDefault, validacaoFn, None, tail);
    }
  }

  /** The script runs out exactly when every reply in it is retried. */
  lemma TrataPromptExhaustedIff(
    textoPrompt: string, permiteCancelar: bool, valorDefault: Option<string>,
    validacaoFn: Option<Validator>, mensagemCancelamento: Option<string>,
    answers: seq<Answer>)
    ensures TrataPrompt(textoPrompt, permiteCancelar, valorDefault, validacaoFn, mensagemCancelamento, answers).outcome.Exhausted?
      <==> forall j :: 0 <= j < |answers| ==> Retried(answers[j], permiteCancelar, validacaoFn)
  {
    if exists j :: 0 <= j < |answers| && !Retried(answers[j], permiteCancelar, validacaoFn) {
      var k := FirstDecisive(answers, permiteCancelar, validacaoFn);
      TrataPromptSettlesAtFirstDecisive(textoPrompt, permiteCancelar, valorDefault, validacaoFn, mensagemCancelamento, answers, k);
    } else {
      TrataPromptExhausts(textoPrompt, permiteCancelar, valorDefault, validacaoFn, mensagemCancelamento, answers);
    }
  }

  /** Index of the first reply that is not retried. */
  function FirstDecisive(answers: seq<Answer>, permiteCancelar: bool, validacaoFn: Option<Validator>): (k: nat)
    requires exists j :: 0 <= j < |answers| && !Retried(answers[j], permiteCancelar, validacaoFn)
    ensures k < |answers| && !Retried(answers[k], permiteCancelar, validacaoFn)
    ensures forall j :: 0 <= j < k ==> Retried(answers[j], permiteCancelar, validacaoFn)
  {
    if !Retried(answers[0], permiteCancelar, validacaoFn) then 0
    else
      var tail := answers[1..];
      assert exists j :: 0 <= j < |tail| && !Retried(tail[j], permiteCancelar, validacaoFn) by {
        var j :| 0 <= j < |answers| && !Retried(answers[j], permiteCancelar, validacaoFn);
        assert tail[j - 1] == answers[j];
      }
      var k := FirstDecisive(tail, permiteCancelar, validacaoFn);
      assert forall j :: 1 <= j <= k ==> answers[j] == tail[j - 1];
      k + 1
  }

  /** With cancelling disallowed no script ever produces a cancellation, and a
      value returned without a validator is never empty. */
  lemma TrataPromptNeverCancelsWhenDisallowed(
    textoPrompt: string, valorDefault: Option<string>, validacaoFn: Option<Validator>,
    mensagemCancelamento: Option<string>, answers: seq<Answer>)
    ensures var r := TrataPrompt(textoPrompt, false, valorDefault, validacaoFn, mensagemCancelamento, answers);
      && !r.outcome.Cancelled?
      && (r.outcome.Accepted? && validacaoFn.None? ==> r.outcome.value != "")
  {
  }

  /** Two rejected replies and then an accepted one: the validator's value,
      after two alerts that carry the rejection messages. */
  lemma {:induction false} TrataPromptTwoRejections(textoPrompt: string, f: Validator,
                                                   a: string, b: string, c: string, answers: seq<Answer>)
    requires answers == [Some(a), Some(b), Some(c)]
    requires a != "" && b != "" && c != ""
    requires f(a).Erro? && f(b).Erro? && f(c).Sucesso?
    ensures var shown := Prompted(PromptShown(textoPrompt, true), None);
      TrataPrompt(textoPrompt, true, None, Some(f), None, answers)
      == Acquisition(Accepted(f(c).valor), [],
                     [shown, Alerted(RejectionAlert(f(a).mensagem)),
                      shown, Alerted(RejectionAlert(f(b).mensagem)), shown])
  {
    var shown := Prompted(PromptShown(textoPrompt, true), None);
    var second := answers[1..];
    var third := second[1..];
    assert second == [Some(b), Some(c)] && third == [Some(c)] && third[1..] == [];
    var r3 := TrataPrompt(textoPrompt, true, None, Some(f), None, third);
    assert r3 == Acquisition(Accepted(f(c).valor), [], [shown]);
    var r2 := TrataPrompt(textoPrompt, true, None, Some(f), None, second);
    assert r2 == r3.(events := [shown, Alerted(RejectionAlert(f(b).mensagem))] + r3.events);
    var r1 := TrataPrompt(textoPrompt, true, None, Some(f), None, answers);
    assert r1 == r2.(events := [shown, Alerted(RejectionAlert(f(a).mensagem))] + r2.events);
  }

  /** Acquiring a CPF with the answers "abc", "11144477736", "11144477735"
      returns the third after two rejections, each announced by an alert. */
  lemma TrataPromptCpfScenario(textoPrompt: string, answers: seq<Answer>)
    requires answers == [Some("abc"), Some("11144477736"), Some("11144477735")]
    ensures var shown := Prompted(PromptShown(textoPrompt, true), None);
      TrataPrompt(textoPrompt, true, None, Some(ValidaCPF), None, answers)
      == Acquisition(Accepted("11144477735"), [],
                     [shown, Alerted(RejectionAlert(MsgCpfFormato)),
                      shown, Alerted(RejectionAlert(MsgCpfDv)), shown])
  {
    var a, b, c := answers[0].value, answers[1].value, answers[2].value;
    assert ValidaCPF(a) == Erro(MsgCpfFormato);
    ValidaCPFTamperedVector(b);
    ValidaCPFKnownVector(c);
    TrataPromptTwoRejections(textoPrompt, ValidaCPF, a, b, c, answers);
  }

  /** The alert that follows a retried reply: the generic one for `null` or an
      empty reply, "Valor Inválido! " with the validator's message for a
      rejected one. */
  function RetryAlertFor(a: Answer, permiteCancelar: bool, validacaoFn: Option<Validator>): string
    requires Retried(a, permiteCancelar, validacaoFn)
  {
    if a.None? || a.value == "" then RetryAlert
    else RejectionAlert(validacaoFn.value(a.value).mensagem)
  }

  /** A retried reply shows the prompt and its alert, then starts over on
      the rest of the script without the caller's cancellation message. */
  lemma TrataPromptRetryStep(
    textoPrompt: string, permiteCancelar: bool, valorDefault: Option<string>,
    validacaoFn: Option<Validator>, mensagemCancelamento: Option<string>,
    answers: seq<Answer>)
    requires |answers| > 0 && Retried(answers[0], permiteCancelar, validacaoFn)
    ensures var again := TrataPrompt(textoPrompt, permiteCancelar, valorDefault, validacaoFn, None, answers[1..]);
      TrataPrompt(textoPrompt, permiteCancelar, valorDefault, validacaoFn, mensagemCancelamento, answers)
      == again.(events := [Prompted(PromptShown(textoPrompt, permiteCancelar), valorDefault),
                           Alerted(RetryAlertFor(answers[0], permiteCancelar, validacaoFn))] + again.events)
  {
  }

  /** The dialogs of an acquisition decided at reply `k`: the same prompt
      before every reply, each retried reply followed by its alert. */
  lemma {:induction false} TrataPromptTrace(
    textoPrompt: string, permiteCancelar: bool, valorDefault: Option<string>,
    validacaoFn: Option<Validator>, mensagemCancelamento: Option<string>,
    answers: seq<Answer>, k: nat)
    requires k < |answers|
    requires forall j :: 0 <= j < k ==> Retried(answers[j], permiteCancelar, validacaoFn)
    requires !Retried(answers[k], permiteCancelar, validacaoFn)
    ensures var r := TrataPrompt(textoPrompt, permiteCancelar, valorDefault, validacaoFn, mensagemCancelamento, answers);
      var shown := Prompted(PromptShown(textoPrompt, permiteCancelar), valorDefault);
      && |r.events| == 2 * k + 1
      && r.events[2 * k] == shown
      && forall j :: 0 <= j < k ==>
           r.events[2 * j] == shown
           && r.events[2 * j + 1] == Alerted(RetryAlertFor(answers[j], permiteCancelar, validacaoFn))
    decreases k
  {
    var shown := Prompted(PromptShown(textoPrompt, permiteCancelar), valorDefault);
    var r := TrataPrompt(textoPrompt, permiteCancelar, valorDefault, validacaoFn, mensagemCancelamento, answers);
    if k > 0 {
      var tail := answers[1..];
      forall j | 0 <= j < k - 1
        ensures Retried(tail[j], permiteCancelar, validacaoFn)
      {
        assert tail[j] == answers[j + 1];
      }
      TrataPromptTrace(textoPrompt, permiteCancelar, valorDefault, validacaoFn, None, tail, k - 1);
      var again := TrataPrompt(textoPrompt, permiteCancelar, valorDefault, validacaoFn, None, tail);
      TrataPromptRetryStep(textoPrompt, permiteCancelar, valorDefault, validacaoFn, mensagemCancelamento, answers);
      var alerts := RetryAlerts(answers, k, permiteCancelar, validacaoFn);
      forall j | 0 <= j < k - 1
        ensures again.events[2 * j + 1] == alerts[j + 1]
      {
        assert tail[j] == answers[j + 1];
      }
      AlternatingTracePrepend(r.events, again.events, shown, alerts, k);
    }
  }

  /** The alerts of the first `k` replies, all of them retried. */
  function RetryAlerts(answers: seq<Answer>, k: nat, permiteCancelar: bool, validacaoFn: Option<Validator>): (alerts: seq<Event>)
    requires k <= |answers|
    requires forall j :: 0 <= j < k ==> Retried(answers[j], permiteCancelar, validacaoFn)
    ensures |alerts| == k
    ensures forall j :: 0 <= j < k ==> alerts[j] == Alerted(RetryAlertFor(answers[j], permiteCancelar, validacaoFn))
  {
    seq(k, j requires 0 <= j < k => Alerted(RetryAlertFor(answers[j], permiteCancelar, validacaoFn)))
  }

  /** A prompt and an alert put in front of an alternating trace give an
      alternating trace one round longer. */
  lemma AlternatingTracePrepend(ev: seq<Event>, tev: seq<Event>, shown: Event, alerts: seq<Event>, k: nat)
    requires 0 < k == |alerts|
    requires ev == [shown, alerts[0]] + tev
    requires |tev| == 2 * (k - 1) + 1 && tev[2 * (k - 1)] == shown
    requires forall j :: 0 <= j < k - 1 ==> tev[2 * j] == shown && tev[2 * j + 1] == alerts[j + 1]
    ensures |ev| == 2 * k + 1 && ev[2 * k] == shown
    ensures forall j :: 0 <= j < k ==> ev[2 * j] == shown && ev[2 * j + 1] == alerts[j]
  {
    forall j | 0 <= j < k
      ensures ev[2 * j] == shown && ev[2 * j + 1] == alerts[j]
    {
      if j > 0 {
        assert ev[2 * j] == tev[2 * (j - 1)];
        assert ev[2 * j + 1] == tev[2 * (j - 1) + 1];
      }
    }
  }

  /** An attempt sequence that ends in accepted text: every reply but the
      last is retried, and the last is text the protocol does not retry. */
  predicate AcceptedAtEnd(s: seq<Answer>, permiteCancelar: bool, validacaoFn: Option<Validator>) {
    && |s| > 0
    && s[|s| - 1].Some?
    && !Retried(s[|s| - 1], permiteCancelar, validacaoFn)
    && forall j :: 0 <= j < |s| - 1 ==> Retried(s[j], permiteCancelar, validacaoFn)
  }

  /** The text of the last reply of a non-empty attempt sequence. */
  function FinalReply(s: seq<Answer>): string
    requires |s| > 0 && s[|s| - 1].Some?
  {
    s[|s| - 1].value
  }

  /** Whatever follows it, an attempt sequence that ends in accepted text is
      consumed exactly, and its last reply (through the validator, if any) is
      the value returned. */
  lemma TrataPromptAcceptsAtEnd(
    textoPrompt: string, permiteCancelar: bool, valorDefault: Option<string>,
    validacaoFn: Option<Validator>, mensagemCancelamento: Option<string>,
    s: seq<Answer>, rest: seq<Answer>)
    requires AcceptedAtEnd(s, permiteCancelar, validacaoFn)
    ensures var r := TrataPrompt(textoPrompt, permiteCancelar, valorDefault, validacaoFn, mensagemCancelamento, s + rest);
      && r.rest == rest
      && r.outcome.Accepted?
      && Admits(validacaoFn, s[|s| - 1], r.outcome.value)
  {
    var answers := s + rest;
    var k := |s| - 1;
    forall j | 0 <= j < k
      ensures Retried(answers[j], permiteCancelar, validacaoFn)
    {
      assert answers[j] == s[j];
    }
    assert answers[k] == s[k];
    TrataPromptSettlesAtFirstDecisive(textoPrompt, permiteCancelar, valorDefault, validacaoFn, mensagemCancelamento, answers, k);
    assert answers[k + 1..] == rest;
  }

  /** The dialogs of `n` attempts at one field: `2n - 1` events, the prompt
      `shown` opening every attempt and no other prompt among them. */
  predicate PromptTrace(ev: seq<Event>, shown: Event, n: nat) {
    && n > 0
    && |ev| == 2 * n - 1
    && (forall j :: 0 <= j < n ==> ev[2 * j] == shown)
    && (forall i | 0 <= i < |ev| && ev[i].Prompted? :: ev[i] == shown)
  }

  /** An attempt sequence that ends in accepted text shows one prompt per
      reply, always the same one, with an alert between consecutive prompts. */
  lemma TrataPromptAcceptsAtEndTrace(
    textoPrompt: string, permiteCancelar: bool, valorDefault: Option<string>,
    validacaoFn: Option<Validator>, mensagemCancelamento: Option<string>,
    s: seq<Answer>, rest: seq<Answer>)
    requires AcceptedAtEnd(s, permiteCancelar, validacaoFn)
    ensures var r := TrataPrompt(textoPrompt, permiteCancelar, valorDefault, validacaoFn, mensagemCancelamento, s + rest);
      PromptTrace(r.events, Prompted(PromptShown(textoPrompt, permiteCancelar), valorDefault), |s|)
  {
    var answers := s + rest;
    var k := |s| - 1;
    forall j | 0 <= j < k
      ensures Retried(answers[j], permiteCancelar, validacaoFn)
    {
      assert answers[j] == s[j];
    }
    assert answers[k] == s[k];
    var r := TrataPrompt(textoPrompt, permiteCancelar, valorDefault, validacaoFn, mensagemCancelamento, answers);
    var shown := Prompted(PromptShown(textoPrompt, permiteCancelar), valorDefault);
    TrataPromptTrace(textoPrompt, permiteCancelar, valorDefault, validacaoFn, mensagemCancelamento, answers, k);
    TrataPromptSamePrompt(textoPrompt, permiteCancelar, valorDefault, validacaoFn, mensagemCancelamento, answers);
    forall j | 0 <= j < |s|
      ensures r.events[2 * j] == shown
    {
      if j < k {
        assert r.events[2 * j] == shown;
      }
    }
    forall i | 0 <= i < |r.events| && r.events[i].Prompted?
      ensures r.events[i] == shown
    {
      assert r.events[i] in r.events;
    }
  }

  /** An attempt sequence closed by "Cancelar" where cancelling is allowed:
      every reply but the last is retried, and the last is `null`. */
  predicate CancelledAtEnd(s: seq<Answer>, validacaoFn: Option<Validator>) {
    && |s| > 0
    && s[|s| - 1].None?
    && forall j :: 0 <= j < |s| - 1 ==> Retried(s[j], true, validacaoFn)
  }

  /** With cancelling allowed, retried replies closed by `null` cancel,
      whatever follows, and nothing after the `null` is read; the caller's
      message is kept only when the `null` is the first reply. */
  lemma TrataPromptCancelsAtEnd(
    textoPrompt: string, valorDefault: Option<string>,
    validacaoFn: Option<Validator>, mensagemCancelamento: Option<string>,
    s: seq<Answer>, rest: seq<Answer>)
    requires CancelledAtEnd(s, validacaoFn)
    ensures var r := TrataPrompt(textoPrompt, true, valorDefault, validacaoFn, mensagemCancelamento, s + rest);
      && r.rest == rest
      && r.outcome == Cancelled(if |s| == 1 then mensagemCancelamento.GetOr(DefaultCancelMessage)
                                else DefaultCancelMessage)
  {
    var answers := s + rest;
    var k := |s| - 1;
    forall j | 0 <= j < k
      ensures Retried(answers[j], true, validacaoFn)
    {
      assert answers[j] == s[j];
    }
    assert answers[k] == s[k];
    TrataPromptSettlesAtFirstDecisive(textoPrompt, true, valorDefault, validacaoFn, mensagemCancelamento, answers, k);
    assert answers[k + 1..] == rest;
  }

  // ---------------------------------------------------------------------------
  // capturaPromptMenu
  // ---------------------------------------------------------------------------

  const MenuCancelMessage := "Aplicação encerrada!"

  /** The keys of the menu map built by `montaMenu`, in insertion order. */
  const MenuKeys: seq<string> := ["1", "2", "3", "4", "5", "6"]

  function InvalidOptionAlert(opcao: string): string {
    "Opção " + opcao + " inválida. Na próxima tela selecione uma opção válida."
  }

  /** Menu replies that send the loop round again: an empty reply (retried by
      `trataPrompt`) or text that is not an option (retried by the menu). */
  predicate MenuRetried(a: Answer, keys: seq<string>) {
    a.Some? && (a.value == "" || a.value !in keys)
  }

  /** `capturaPromptMenu`: asks with cancelling allowed and the message
      "Aplicação encerrada!", and asks again while the answer is not a key.
      `menuTexto` is the (presentation-only) listing of the options. */
  function CapturaPromptMenu(keys: seq<string>, menuTexto: string, answers: seq<Answer>): (r: Acquisition)
    ensures IsSuffixOf(r.rest, answers)
    ensures r.outcome.Exhausted? ==> r.rest == []
    ensures r.outcome.Accepted? ==>
      && |r.rest| < |answers|
      && r.outcome.value in keys
      && LastRead(answers, r.rest) == Some(r.outcome.value)
    ensures r.outcome.Cancelled? ==> |r.rest| < |answers| && LastRead(answers, r.rest).None?
    ensures r.outcome.Cancelled? ==>
      var p := |answers| - |r.rest| - 1;
      if p > 0 && answers[p - 1] == Some("") then r.outcome.message == DefaultCancelMessage
      else r.outcome.message == MenuCancelMessage
    decreases |answers|
  {
    var a := TrataPrompt(menuTexto, true, None, None, Some(MenuCancelMessage), answers);
    TrataPromptRetriedBefore(menuTexto, true, None, None, Some(MenuCancelMessage), answers);
    match a.outcome
    case Accepted(menuSelecionado) =>
      if menuSelecionado in keys then a
      else
        var again := CapturaPromptMenu(keys, menuTexto, a.rest);
        SuffixTransitive(again.rest, a.rest, answers);
        again.(events := a.events + [Alerted(InvalidOptionAlert(menuSelecionado))] + again.events)
    case _ =>
      a
  }

  /** One round of the menu loop: a reply that is not an option leaves the
      outcome to the loop over the replies after it. */
  lemma CapturaPromptMenuStep(keys: seq<string>, menuTexto: string, answers: seq<Answer>)
    requires var a := TrataPrompt(menuTexto, true, None, None, Some(MenuCancelMessage), answers);
      a.outcome.Accepted? && a.outcome.value !in keys
    ensures var a := TrataPrompt(menuTexto, true, None, None, Some(MenuCancelMessage), answers);
      var again := CapturaPromptMenu(keys, menuTexto, a.rest);
      var r := CapturaPromptMenu(keys, menuTexto, answers);
      r.outcome == again.outcome && r.rest == again.rest
  {
  }

  /** What one round of the menu loop read: replies the menu asks again
      after, up to the one that ends the round; that one is asked again
      after exactly when it is text that is not an option. */
  lemma TrataPromptMenuRound(keys: seq<string>, menuTexto: string, answers: seq<Answer>)
    ensures var a := TrataPrompt(menuTexto, true, None, None, Some(MenuCancelMessage), answers);
      var again := a.outcome.Accepted? && a.outcome.value !in keys;
      && (a.outcome.Exhausted? ==> forall j :: 0 <= j < |answers| ==> MenuRetried(answers[j], keys))
      && (again ==> forall j :: 0 <= j < |answers| - |a.rest| ==> MenuRetried(answers[j], keys))
      && (!a.outcome.Exhausted? && !again ==>
            && !MenuRetried(LastRead(answers, a.rest), keys)
            && forall j :: 0 <= j < |answers| - |a.rest| - 1 ==> MenuRetried(answers[j], keys))
  {
    var a := TrataPrompt(menuTexto, true, None, None, Some(MenuCancelMessage), answers);
    TrataPromptRetriedBefore(menuTexto, true, None, None, Some(MenuCancelMessage), answers);
    var read := |answers| - |a.rest|;
    if !a.outcome.Exhausted? {
      forall j | 0 <= j < read
        ensures j < read - 1 || (a.outcome.Accepted? && a.outcome.value !in keys) ==> MenuRetried(answers[j], keys)
      {
        if j == read - 1 && a.outcome.Accepted? {
          assert answers[j] == Some(a.outcome.value);
        }
      }
    }
  }

  /** Every reply read before the deciding one was empty or not an option,
      and the deciding one is `null` or an option; the script runs out only
      when every reply is empty or not an option. */
  lemma {:induction false} CapturaPromptMenuRetriedBefore(keys: seq<string>, menuTexto: string, answers: seq<Answer>)
    ensures var r := CapturaPromptMenu(keys, menuTexto, answers);
      && (r.outcome.Exhausted? ==> forall j :: 0 <= j < |answers| ==> MenuRetried(answers[j], keys))
      && (!r.outcome.Exhausted? ==>
            && |r.rest| < |answers|
            && !MenuRetried(LastRead(answers, r.rest), keys)
            && forall j :: 0 <= j < |answers| - |r.rest| - 1 ==> MenuRetried(answers[j], keys))
    decreases |answers|
  {
    var r := CapturaPromptMenu(keys, menuTexto, answers);
    var a := TrataPrompt(menuTexto, true, None, None, Some(MenuCancelMessage), answers);
    TrataPromptMenuRound(keys, menuTexto, answers);
    if a.outcome.Accepted? && a.outcome.value !in keys {
      var again := CapturaPromptMenu(keys, menuTexto, a.rest);
      CapturaPromptMenuRetriedBefore(keys, menuTexto, a.rest);
      CapturaPromptMenuStep(keys, menuTexto, answers);
      var P := (x: Answer) => MenuRetried(x, keys);
      var n := if again.outcome.Exhausted? then |a.rest| else |a.rest| - |again.rest| - 1;
      PrefixPropertyExtends(answers, a.rest, P, n);
      if !again.outcome.Exhausted? {
        LastReadThroughSuffix(answers, a.rest, again.rest);
      }
    } else {
      assert r == a;
    }
  }

  /** The menu is decided by the first reply that is `null` or an option:
      the option is returned, and a `null` cancels with the message the
      previous reply left in force. */
  lemma CapturaPromptMenuSettles(keys: seq<string>, menuTexto: string, answers: seq<Answer>, k: nat)
    requires k < |answers|
    requires forall j :: 0 <= j < k ==> MenuRetried(answers[j], keys)
    requires !MenuRetried(answers[k], keys)
    ensures var r := CapturaPromptMenu(keys, menuTexto, answers);
      && r.rest == answers[k + 1..]
      && r.outcome == (if answers[k].Some? then Accepted(answers[k].value)
                       else if k > 0 && answers[k - 1] == Some("") then Cancelled(DefaultCancelMessage)
                       else Cancelled(MenuCancelMessage))
  {
    var r := CapturaPromptMenu(keys, menuTexto, answers);
    CapturaPromptMenuRetriedBefore(keys, menuTexto, answers);
    var decisive := answers[k];
    assert r.outcome.Exhausted? ==> MenuRetried(decisive, keys);
    assert !r.outcome.Exhausted?;
    var p := |answers| - |r.rest| - 1;
    var last := answers[p];
    assert !MenuRetried(last, keys);
    assert p < k ==> MenuRetried(last, keys);
    assert p > k ==> MenuRetried(decisive, keys);
    assert p == k;
    assert r.rest == answers[k + 1..];
  }

  /** A reply the menu rejects as an option: text that is not empty and not
      a key. */
  predicate NotAnOption(a: Answer, keys: seq<string>) {
    a.Some? && a.value != "" && a.value !in keys
  }

  /** In one round of the menu loop only the reply that ends the round can
      be non-empty text, and then the round returns that text. */
  lemma TrataPromptMenuRoundText(menuTexto: string, answers: seq<Answer>)
    ensures var a := TrataPrompt(menuTexto, true, None, None, Some(MenuCancelMessage), answers);
      forall j :: 0 <= j < |answers| - |a.rest| && answers[j].Some? && answers[j].value != "" ==>
        j == |answers| - |a.rest| - 1 && a.outcome == Accepted(answers[j].value)
  {
    var a := TrataPrompt(menuTexto, true, None, None, Some(MenuCancelMessage), answers);
    TrataPromptRetriedBefore(menuTexto, true, None, None, Some(MenuCancelMessage), answers);
    var read := |answers| - |a.rest|;
    forall j | 0 <= j < read && answers[j].Some? && answers[j].value != ""
      ensures j == read - 1 && a.outcome == Accepted(answers[j].value)
    {
      var x := answers[j];
      assert !Retried(x, true, None);
      assert !a.outcome.Exhausted?;
      assert LastRead(answers, a.rest) == answers[read - 1];
    }
  }

  /** The alerts the menu owes for the replies it read, carried through one
      retried round: those of the round are `alert`, those after it are owed
      by `later`. */
  lemma AlertsThroughRetry(answers: seq<Answer>, mid: seq<Answer>, rest: seq<Answer>,
                           first: seq<Event>, alert: Event, later: seq<Event>, keys: seq<string>)
    requires IsSuffixOf(mid, answers) && IsSuffixOf(rest, mid)
    requires forall j :: 0 <= j < |answers| - |mid| && NotAnOption(answers[j], keys) ==>
      Alerted(InvalidOptionAlert(answers[j].value)) == alert
    requires forall j :: 0 <= j < |mid| - |rest| && NotAnOption(mid[j], keys) ==>
      Alerted(InvalidOptionAlert(mid[j].value)) in later
    ensures forall j :: 0 <= j < |answers| - |rest| && NotAnOption(answers[j], keys) ==>
      Alerted(InvalidOptionAlert(answers[j].value)) in first + [alert] + later
  {
    var read := |answers| - |mid|;
    forall j | 0 <= j < |answers| - |rest| && NotAnOption(answers[j], keys)
      ensures Alerted(InvalidOptionAlert(answers[j].value)) in first + [alert] + later
    {
      if j < read {
        assert (first + [alert] + later)[|first|] == alert;
      } else {
        assert answers[j] == mid[j - read];
        assert Alerted(InvalidOptionAlert(mid[j - read].value)) in later;
      }
    }
  }

  /** Every reply read that is text but not an option is answered by the
      menu's alert naming it. */
  lemma {:induction false} CapturaPromptMenuAlerts(keys: seq<string>, menuTexto: string, answers: seq<Answer>)
    ensures var r := CapturaPromptMenu(keys, menuTexto, answers);
      forall j :: 0 <= j < |answers| - |r.rest| && NotAnOption(answers[j], keys) ==>
        Alerted(InvalidOptionAlert(answers[j].value)) in r.events
    decreases |answers|
  {
    var r := CapturaPromptMenu(keys, menuTexto, answers);
    var a := TrataPrompt(menuTexto, true, None, None, Some(MenuCancelMessage), answers);
    TrataPromptMenuRoundText(menuTexto, answers);
    if a.outcome.Accepted? && a.outcome.value !in keys {
      var v := a.outcome.value;
      var again := CapturaPromptMenu(keys, menuTexto, a.rest);
      var alert := Alerted(InvalidOptionAlert(v));
      assert r == again.(events := a.events + [alert] + again.events);
      CapturaPromptMenuAlerts(keys, menuTexto, a.rest);
      AlertsThroughRetry(answers, a.rest, again.rest, a.events, alert, again.events, keys);
    } else {
      assert r == a;
    }
  }

  /** Cancelling the menu straight away, or after an answer that is not an
      option, ends with "Aplicação encerrada!"; cancelling after an empty
      answer ends with "Operação cancelada", the message the retry dropped to. */
  lemma CapturaPromptMenuCancelMessages(menuTexto: string, a1: seq<Answer>, a2: seq<Answer>, a3: seq<Answer>)
    requires a1 == [None] && a2 == [Some("9"), None] && a3 == [Some(""), None]
    ensures CapturaPromptMenu(MenuKeys, menuTexto, a1).outcome == Cancelled(MenuCancelMessage)
    ensures CapturaPromptMenu(MenuKeys, menuTexto, a2).outcome == Cancelled(MenuCancelMessage)
    ensures CapturaPromptMenu(MenuKeys, menuTexto, a3).outcome == Cancelled(DefaultCancelMessage)
  {
    assert "9" !in MenuKeys;
    assert a2[1..] == [None];
    assert a3[1..] == [None];
    assert TrataPrompt(menuTexto, true, None, None, None, a3[1..]).outcome == Cancelled(DefaultCancelMessage);
    assert TrataPrompt(menuTexto, true, None, None, Some(MenuCancelMessage), a3).outcome == Cancelled(DefaultCancelMessage);
  }
}
