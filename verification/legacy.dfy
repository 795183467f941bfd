/** The older index.js variant: every field is read with
    `trataPromptNullOuVazio`, which cannot be cancelled and has no validator,
    and clients are deleted by CPF instead of by id. */
module Legacy {

  import opened Common
  import opened Prompt
  import opened Clients

  const RetryPrefix := "Valor inválido!\n"

  /** No usable reply: `null` or the empty string. */
  predicate Blank(a: Answer) {
    a.None? || a.value == ""
  }

  /** The dialog text: the plain text first, the warning-prefixed text on every repeat. */
  function LoopPrompt(textoPrompt: string, repeat: bool): string {
    if repeat then RetryPrefix + textoPrompt else textoPrompt
  }

  /** The `while` loop of `trataPromptNullOuVazio`, from its first prompt
      (`repeat` false) or from a repeated one (`repeat` true). */
  function AskUntilFilled(textoPrompt: string, repeat: bool, answers: seq<Answer>): (r: Acquisition)
    ensures IsSuffixOf(r.rest, answers)
    ensures r.outcome.Accepted? || r.outcome.Exhausted?
    ensures r.outcome.Exhausted? ==> r.rest == [] && forall j :: 0 <= j < |answers| ==> Blank(answers[j])
    ensures r.outcome.Accepted? ==>
      && |r.rest| < |answers|
      && LastRead(answers, r.rest) == Some(r.outcome.value)
      && r.outcome.value != ""
      && forall j :: 0 <= j < |answers| - |r.rest| - 1 ==> Blank(answers[j])
    decreases |answers|
  {
    if |answers| == 0 then Acquisition(Exhausted, [], [])
    else
      var shown := Prompted(LoopPrompt(textoPrompt, repeat), None);
      var valorPrompt := answers[0];
      if Blank(valorPrompt) then
        var again := AskUntilFilled(textoPrompt, true, answers[1..]);
        again.(events := [shown] + again.events)
      else
        Acquisition(Accepted(valorPrompt.value), answers[1..], [shown])
  }

  /** One prompt per reply read: the plain text first (unless already
      repeating), the warning-prefixed text on every repeat. */
  lemma {:induction false} AskUntilFilledTrace(textoPrompt: string, repeat: bool, answers: seq<Answer>)
    ensures var r := AskUntilFilled(textoPrompt, repeat, answers);
      && |r.events| == |answers| - |r.rest|
      && forall k :: 0 <= k < |r.events| ==> r.events[k] == Prompted(LoopPrompt(textoPrompt, repeat || k > 0), None)
    decreases |answers|
  {
    if |answers| > 0 && Blank(answers[0]) {
      AskUntilFilledTrace(textoPrompt, true, answers[1..]);
    }
  }

  /** `trataPromptNullOuVazio`: the first non-blank reply, never a cancellation. */
  function TrataPromptNullOuVazio(textoPrompt: string, answers: seq<Answer>): (r: Acquisition)
    ensures IsSuffixOf(r.rest, answers)
    ensures !r.outcome.Cancelled?
    ensures r.outcome.Exhausted? <==> forall j :: 0 <= j < |answers| ==> Blank(answers[j])
    ensures r.outcome.Accepted? ==>
      && |r.rest| < |answers|
      && LastRead(answers, r.rest) == Some(r.outcome.value)
      && r.outcome.value != ""
      && forall j :: 0 <= j < |answers| - |r.rest| - 1 ==> Blank(answers[j])
  {
    AskUntilFilled(textoPrompt, false, answers)
  }

  // ---------------------------------------------------------------------------
  // capturaPromptMenu (index.js)
  // ---------------------------------------------------------------------------

  /** Menu replies the index.js loop asks again after: blank ones, which
      `trataPromptNullOuVazio` retries, and text that is not an option. */
  predicate LegacyMenuRetried(a: Answer, opcoes: seq<string>) {
    Blank(a) || a.value !in opcoes
  }

  /** `capturaPromptMenu` of index.js: asks until the reply is one of the keys. */
  function CapturaPromptMenuLegado(opcoes: seq<string>, menuTexto: string, answers: seq<Answer>): (r: Acquisition)
    ensures IsSuffixOf(r.rest, answers)
    ensures r.outcome.Accepted? || r.outcome.Exhausted?
    ensures r.outcome.Exhausted? ==> r.rest == []
    ensures r.outcome.Accepted? ==>
      && |r.rest| < |answers|
      && r.outcome.value in opcoes
      && r.outcome.value != ""
      && LastRead(answers, r.rest) == Some(r.outcome.value)
    decreases |answers|
  {
    var a := TrataPromptNullOuVazio(menuTexto, answers);
    match a.outcome
    case Accepted(menuSelecionado) =>
      if menuSelecionado !in opcoes then
        var again := CapturaPromptMenuLegado(opcoes, menuTexto, a.rest);
        SuffixTransitive(again.rest, a.rest, answers);
        again.(events := a.events + [Alerted(InvalidOptionAlert(menuSelecionado))] + again.events)
      else a
    case _ => a
  }

  /** One round of the index.js menu loop: a reply that is not an option
      leaves the outcome to the loop over the replies after it. */
  lemma CapturaPromptMenuLegadoStep(opcoes: seq<string>, menuTexto: string, answers: seq<Answer>)
    requires var a := TrataPromptNullOuVazio(menuTexto, answers);
      a.outcome.Accepted? && a.outcome.value !in opcoes
    ensures var a := TrataPromptNullOuVazio(menuTexto, answers);
      var again := CapturaPromptMenuLegado(opcoes, menuTexto, a.rest);
      var r := CapturaPromptMenuLegado(opcoes, menuTexto, answers);
      r.outcome == again.outcome && r.rest == again.rest
  {
  }

  /** A round that ends on text that is not an option read nothing but
      replies the menu asks again after. */
  lemma TrataPromptNullOuVazioRetried(opcoes: seq<string>, menuTexto: string, answers: seq<Answer>)
    requires var a := TrataPromptNullOuVazio(menuTexto, answers);
      a.outcome.Accepted? && a.outcome.value !in opcoes
    ensures var a := TrataPromptNullOuVazio(menuTexto, answers);
      forall j :: 0 <= j < |answers| - |a.rest| ==> LegacyMenuRetried(answers[j], opcoes)
  {
    var a := TrataPromptNullOuVazio(menuTexto, answers);
    var read := |answers| - |a.rest|;
    forall j | 0 <= j < read
      ensures LegacyMenuRetried(answers[j], opcoes)
    {
      if j < read - 1 {
        assert Blank(answers[j]);
      } else {
        assert answers[j] == Some(a.outcome.value);
      }
    }
  }

  /** Every reply read before the chosen option was blank or not an option;
      the script runs out only when every reply is. */
  lemma {:induction false} CapturaPromptMenuLegadoRetriedBefore(opcoes: seq<string>, menuTexto: string, answers: seq<Answer>)
    ensures var r := CapturaPromptMenuLegado(opcoes, menuTexto, answers);
      && (r.outcome.Exhausted? ==> forall j :: 0 <= j < |answers| ==> LegacyMenuRetried(answers[j], opcoes))
      && (r.outcome.Accepted? ==> forall j :: 0 <= j < |answers| - |r.rest| - 1 ==> LegacyMenuRetried(answers[j], opcoes))
    decreases |answers|
  {
    var r := CapturaPromptMenuLegado(opcoes, menuTexto, answers);
    var a := TrataPromptNullOuVazio(menuTexto, answers);
    var read := |answers| - |a.rest|;
    assert a.outcome.Accepted? ==> forall j :: 0 <= j < read - 1 ==> LegacyMenuRetried(answers[j], opcoes);
    if a.outcome.Accepted? && a.outcome.value !in opcoes {
      var again := CapturaPromptMenuLegado(opcoes, menuTexto, a.rest);
      CapturaPromptMenuLegadoRetriedBefore(opcoes, menuTexto, a.rest);
      CapturaPromptMenuLegadoStep(opcoes, menuTexto, answers);
      TrataPromptNullOuVazioRetried(opcoes, menuTexto, answers);
      var P := (x: Answer) => LegacyMenuRetried(x, opcoes);
      var n := if again.outcome.Exhausted? then |a.rest| else |a.rest| - |again.rest| - 1;
      PrefixPropertyExtends(answers, a.rest, P, n);
    } else {
      assert r == a;
    }
  }

  /** The index.js menu returns the first reply that is an option and reads
      nothing after it. */
  lemma CapturaPromptMenuLegadoSettles(opcoes: seq<string>, menuTexto: string, answers: seq<Answer>, k: nat)
    requires k < |answers|
    requires forall j :: 0 <= j < k ==> LegacyMenuRetried(answers[j], opcoes)
    requires !LegacyMenuRetried(answers[k], opcoes)
    ensures var r := CapturaPromptMenuLegado(opcoes, menuTexto, answers);
      r.outcome == Accepted(answers[k].value) && r.rest == answers[k + 1..]
  {
    var r := CapturaPromptMenuLegado(opcoes, menuTexto, answers);
    CapturaPromptMenuLegadoRetriedBefore(opcoes, menuTexto, answers);
    assert !r.outcome.Exhausted?;
    var p := |answers| - |r.rest| - 1;
    assert !LegacyMenuRetried(answers[p], opcoes);
    assert !(p < k);
    assert !(p > k);
    assert answers[p] == Some(r.outcome.value);
  }

  /** In one round of the index.js menu loop only the reply that ends the
      round can be non-blank, and then the round returns it. */
  lemma TrataPromptNullOuVazioRoundText(menuTexto: string, answers: seq<Answer>)
    ensures var a := TrataPromptNullOuVazio(menuTexto, answers);
      forall j :: 0 <= j < |answers| - |a.rest| && !Blank(answers[j]) ==>
        j == |answers| - |a.rest| - 1 && a.outcome == Accepted(answers[j].value)
  {
    var a := TrataPromptNullOuVazio(menuTexto, answers);
    var read := |answers| - |a.rest|;
    forall j | 0 <= j < read && !Blank(answers[j])
      ensures j == read - 1 && a.outcome == Accepted(answers[j].value)
    {
      assert !a.outcome.Exhausted?;
      assert LastRead(answers, a.rest) == answers[read - 1];
    }
  }

  /** Every reply read that is text but not an option is answered by the
      index.js menu's alert naming it. */
  lemma {:induction false} CapturaPromptMenuLegadoAlerts(opcoes: seq<string>, menuTexto: string, answers: seq<Answer>)
    ensures var r := CapturaPromptMenuLegado(opcoes, menuTexto, answers);
      forall j :: 0 <= j < |answers| - |r.rest| && NotAnOption(answers[j], opcoes) ==>
        Alerted(InvalidOptionAlert(answers[j].value)) in r.events
    decreases |answers|
  {
    var r := CapturaPromptMenuLegado(opcoes, menuTexto, answers);
    var a := TrataPromptNullOuVazio(menuTexto, answers);
    TrataPromptNullOuVazioRoundText(menuTexto, answers);
    if a.outcome.Accepted? && a.outcome.value !in opcoes {
      var v := a.outcome.value;
      var again := CapturaPromptMenuLegado(opcoes, menuTexto, a.rest);
      var alert := Alerted(InvalidOptionAlert(v));
      assert r == again.(events := a.events + [alert] + again.events);
      CapturaPromptMenuLegadoAlerts(opcoes, menuTexto, a.rest);
      AlertsThroughRetry(answers, a.rest, again.rest, a.events, alert, again.events, opcoes);
    } else {
      assert r == a;
    }
  }

  // ---------------------------------------------------------------------------
  // cadastrarCliente and deletarCliente (index.js)
  // ---------------------------------------------------------------------------

  const CadastroPromptsLegado: seq<string> := [
    "Cadastrar Cliente\n" + Separator + "\nPasso 1\nInforme o nome do cliente:",
    "Passo 2\nInforme o CPF:",
    "Passo 3\nInforme o telefone:",
    "Passo 4\nInforme o endereço:"
  ]

  /** The four `trataPromptNullOuVazio` calls of `cadastrarCliente`, in order;
      each reads on from where the previous one stopped. */
  function AcquireFieldsLegado(answers: seq<Answer>): (r: FieldsAcquisition)
    ensures IsSuffixOf(r.rest, answers)
    ensures r.outcome.AllAccepted? || r.outcome == Interrupted(Exhausted)
    ensures r.outcome.AllAccepted? ==>
      var f := r.outcome.fields;
      f.nome != "" && f.cpf != "" && f.telefone != "" && f.endereco != ""
    ensures r.outcome.Interrupted? ==> r.rest == []
  {
    var nome := TrataPromptNullOuVazio(CadastroPromptsLegado[0], answers);
    var cpf := TrataPromptNullOuVazio(CadastroPromptsLegado[1], nome.rest);
    var telefone := TrataPromptNullOuVazio(CadastroPromptsLegado[2], cpf.rest);
    var endereco := TrataPromptNullOuVazio(CadastroPromptsLegado[3], telefone.rest);
    SuffixTransitive(cpf.rest, nome.rest, answers);
    SuffixTransitive(telefone.rest, cpf.rest, answers);
    SuffixTransitive(endereco.rest, telefone.rest, answers);
    var shown := nome.events + cpf.events + telefone.events + endereco.events;
    if nome.outcome.Accepted? && cpf.outcome.Accepted? && telefone.outcome.Accepted? && endereco.outcome.Accepted? then
      var f := Fields(nome.outcome.value, cpf.outcome.value, telefone.outcome.value, endereco.outcome.value);
      FieldsAcquisition(AllAccepted(f), endereco.rest, shown)
    else
      FieldsAcquisition(Interrupted(Exhausted), endereco.rest, shown)
  }

  /** The four values are replies of the script, read in order. */
  lemma AcquireFieldsLegadoReadsInOrder(answers: seq<Answer>)
    ensures var r := AcquireFieldsLegado(answers);
      r.outcome.AllAccepted? ==> ReadInOrder(answers, r.rest, r.outcome.fields)
  {
    var r := AcquireFieldsLegado(answers);
    if r.outcome.AllAccepted? {
      var nome := TrataPromptNullOuVazio(CadastroPromptsLegado[0], answers);
      var cpf := TrataPromptNullOuVazio(CadastroPromptsLegado[1], nome.rest);
      var telefone := TrataPromptNullOuVazio(CadastroPromptsLegado[2], cpf.rest);
      var endereco := TrataPromptNullOuVazio(CadastroPromptsLegado[3], telefone.rest);
      ChainedReads(answers, nome.rest, cpf.rest, telefone.rest, endereco.rest, r.outcome.fields);
    }
  }

  /** A sequence of blank replies closed by a non-blank one. */
  predicate FilledAtEnd(s: seq<Answer>) {
    && |s| > 0
    && !Blank(s[|s| - 1])
    && forall j :: 0 <= j < |s| - 1 ==> Blank(s[j])
  }

  /** Whatever follows it, blank replies closed by a non-blank one are
      consumed exactly and the non-blank text is returned. */
  lemma TrataPromptNullOuVazioFilledAtEnd(textoPrompt: string, s: seq<Answer>, rest: seq<Answer>)
    requires FilledAtEnd(s)
    ensures var r := TrataPromptNullOuVazio(textoPrompt, s + rest);
      r.outcome == Accepted(FinalReply(s)) && r.rest == rest
  {
    var answers := s + rest;
    var r := TrataPromptNullOuVazio(textoPrompt, answers);
    var k := |s| - 1;
    assert answers[k] == s[k];
    assert !r.outcome.Exhausted?;
    var p := |answers| - |r.rest| - 1;
    assert p == k by {
      assert forall j :: 0 <= j < k ==> answers[j] == s[j];
      assert !(p < k);
    }
    assert answers[k + 1..] == rest;
  }

  /** Four sequences of blank replies, each closed by a non-blank one, give
      exactly those four texts and leave what follows unread. */
  lemma AcquireFieldsLegadoConcludes(s1: seq<Answer>, s2: seq<Answer>, s3: seq<Answer>, s4: seq<Answer>,
                                     rest: seq<Answer>, answers: seq<Answer>)
    requires answers == s1 + (s2 + (s3 + (s4 + rest)))
    requires FilledAtEnd(s1) && FilledAtEnd(s2) && FilledAtEnd(s3) && FilledAtEnd(s4)
    ensures var r := AcquireFieldsLegado(answers);
      r.outcome == AllAccepted(Fields(FinalReply(s1), FinalReply(s2), FinalReply(s3), FinalReply(s4)))
      && r.rest == rest
  {
    TrataPromptNullOuVazioFilledAtEnd(CadastroPromptsLegado[0], s1, s2 + (s3 + (s4 + rest)));
    TrataPromptNullOuVazioFilledAtEnd(CadastroPromptsLegado[1], s2, s3 + (s4 + rest));
    TrataPromptNullOuVazioFilledAtEnd(CadastroPromptsLegado[2], s3, s4 + rest);
    TrataPromptNullOuVazioFilledAtEnd(CadastroPromptsLegado[3], s4, rest);
  }

  /** The dialogs of `n` attempts at one index.js field: one prompt per
      reply, the plain text first and the warning-prefixed text after. */
  predicate LegacyTrace(ev: seq<Event>, textoPrompt: string, n: nat) {
    && n > 0
    && |ev| == n
    && forall j :: 0 <= j < n ==> ev[j] == Prompted(LoopPrompt(textoPrompt, j > 0), None)
  }

  /** Blank replies closed by a non-blank one cost one prompt each. */
  lemma TrataPromptNullOuVazioFilledAtEndTrace(textoPrompt: string, s: seq<Answer>, rest: seq<Answer>)
    requires FilledAtEnd(s)
    ensures LegacyTrace(TrataPromptNullOuVazio(textoPrompt, s + rest).events, textoPrompt, |s|)
  {
    TrataPromptNullOuVazioFilledAtEnd(textoPrompt, s, rest);
    AskUntilFilledTrace(textoPrompt, false, s + rest);
  }

  /** The dialogs of field `k` of `cadastrarCliente` when the acquisition
      reaches it on the script `a`. */
  function LegacyFieldEvents(k: nat, a: seq<Answer>): seq<Event>
    requires k < 4
  {
    TrataPromptNullOuVazio(CadastroPromptsLegado[k], a).events
  }

  /** A completed index.js acquisition shows the dialogs of the four fields
      one after the other. */
  lemma AcquireFieldsLegadoEvents(s1: seq<Answer>, s2: seq<Answer>, s3: seq<Answer>, s4: seq<Answer>,
                                  rest: seq<Answer>, answers: seq<Answer>)
    requires answers == s1 + (s2 + (s3 + (s4 + rest)))
    requires FilledAtEnd(s1) && FilledAtEnd(s2) && FilledAtEnd(s3) && FilledAtEnd(s4)
    ensures AcquireFieldsLegado(answers).events
      == LegacyFieldEvents(0, answers) + LegacyFieldEvents(1, s2 + (s3 + (s4 + rest)))
         + LegacyFieldEvents(2, s3 + (s4 + rest)) + LegacyFieldEvents(3, s4 + rest)
  {
    TrataPromptNullOuVazioFilledAtEnd(CadastroPromptsLegado[0], s1, s2 + (s3 + (s4 + rest)));
    TrataPromptNullOuVazioFilledAtEnd(CadastroPromptsLegado[1], s2, s3 + (s4 + rest));
    TrataPromptNullOuVazioFilledAtEnd(CadastroPromptsLegado[2], s3, s4 + rest);
  }

  /** The dialogs of a completed index.js acquisition, field by field: the
      attempts at field k come k-th, one prompt per reply, field k's plain
      text first and its warning-prefixed text on every repeat. */
  lemma AcquireFieldsLegadoTrace(s1: seq<Answer>, s2: seq<Answer>, s3: seq<Answer>, s4: seq<Answer>,
                                 rest: seq<Answer>, answers: seq<Answer>)
    requires answers == s1 + (s2 + (s3 + (s4 + rest)))
    requires FilledAtEnd(s1) && FilledAtEnd(s2) && FilledAtEnd(s3) && FilledAtEnd(s4)
    ensures var e1, e2 := LegacyFieldEvents(0, answers), LegacyFieldEvents(1, s2 + (s3 + (s4 + rest)));
      var e3, e4 := LegacyFieldEvents(2, s3 + (s4 + rest)), LegacyFieldEvents(3, s4 + rest);
      && AcquireFieldsLegado(answers).events == e1 + e2 + e3 + e4
      && LegacyTrace(e1, CadastroPromptsLegado[0], |s1|)
      && LegacyTrace(e2, CadastroPromptsLegado[1], |s2|)
      && LegacyTrace(e3, CadastroPromptsLegado[2], |s3|)
      && LegacyTrace(e4, CadastroPromptsLegado[3], |s4|)
  {
    AcquireFieldsLegadoEvents(s1, s2, s3, s4, rest, answers);
    TrataPromptNullOuVazioFilledAtEndTrace(CadastroPromptsLegado[0], s1, s2 + (s3 + (s4 + rest)));
    TrataPromptNullOuVazioFilledAtEndTrace(CadastroPromptsLegado[1], s2, s3 + (s4 + rest));
    TrataPromptNullOuVazioFilledAtEndTrace(CadastroPromptsLegado[2], s3, s4 + rest);
    TrataPromptNullOuVazioFilledAtEndTrace(CadastroPromptsLegado[3], s4, rest);
  }

  /** `cadastrarCliente` of index.js: four non-blank replies, no validation,
      then one record appended with the next id. */
  function CadastrarClienteLegado(cs: seq<Cliente>, answers: seq<Answer>): (r: Session)
    ensures IsSuffixOf(r.rest, answers)
    ensures r.status.Concluded? || r.status.OutOfInput?
    ensures r.status.Concluded? ==>
      && |r.clientes| == |cs| + 1
      && r.clientes[..|cs|] == cs
      && IsNextId(cs, r.clientes[|cs|].id)
      && ReadInOrder(answers, r.rest, FieldsOf(r.clientes[|cs|]))
      && var c := r.clientes[|cs|];
         c.nome != "" && c.cpf != "" && c.telefone != "" && c.endereco != ""
    ensures var a := AcquireFieldsLegado(answers);
      && (r.status.Concluded? <==> a.outcome.AllAccepted?)
      && (r.status.Concluded? ==> FieldsOf(r.clientes[|cs|]) == a.outcome.fields)
    ensures r.status.OutOfInput? ==> r.clientes == cs && r.rest == []
    ensures UniqueIds(cs) ==> UniqueIds(r.clientes)
  {
    var acquired := AcquireFieldsLegado(answers);
    match acquired.outcome
    case AllAccepted(f) =>
      AcquireFieldsLegadoReadsInOrder(answers);
      var novoCliente := Cliente(NextId(cs), f.nome, f.cpf, f.telefone, f.endereco);
      AppendKeepsUniqueIds(cs, novoCliente);
      Session(Concluded, cs + [novoCliente], acquired.rest,
              acquired.events + [Alerted("Cliente " + f.nome + " cadastro com sucesso!")])
    case Interrupted(_) =>
      Session(OutOfInput, cs, acquired.rest, acquired.events)
  }

  /** Four sequences of blank replies, each closed by a non-blank one, add
      exactly one record holding the four texts under the next id. */
  lemma CadastrarClienteLegadoConcludes(cs: seq<Cliente>, s1: seq<Answer>, s2: seq<Answer>, s3: seq<Answer>,
                                        s4: seq<Answer>, rest: seq<Answer>, answers: seq<Answer>)
    requires answers == s1 + (s2 + (s3 + (s4 + rest)))
    requires FilledAtEnd(s1) && FilledAtEnd(s2) && FilledAtEnd(s3) && FilledAtEnd(s4)
    ensures var r := CadastrarClienteLegado(cs, answers);
      && r.status == Concluded
      && r.clientes == cs + [Cliente(NextId(cs), FinalReply(s1), FinalReply(s2), FinalReply(s3), FinalReply(s4))]
      && r.rest == rest
  {
    AcquireFieldsLegadoConcludes(s1, s2, s3, s4, rest, answers);
  }

  /** The record added by the index.js `cadastrarCliente` is found again
      under its new id, at the end of the list. */
  lemma CadastrarClienteLegadoThenFind(cs: seq<Cliente>, answers: seq<Answer>)
    ensures var r := CadastrarClienteLegado(cs, answers);
      r.status.Concluded? ==> FindById(r.clientes, r.clientes[|cs|].id) == Some(|cs|)
  {
    var r := CadastrarClienteLegado(cs, answers);
    if r.status.Concluded? {
      var novo := r.clientes[|cs|];
      assert r.clientes == cs + [novo] by {
        assert r.clientes == r.clientes[..|cs|] + [novo];
      }
      AppendedRecordFound(cs, novo);
    }
  }

  const DeleteByCpfPrompt := "Deletar Cliente\n" + Separator + "\nInforme o CPF do cliente que deseja deletar:"

  function HasCpf(cpf: string): Cliente -> bool {
    (c: Cliente) => c.cpf == cpf
  }

  function RetryDeletePrompt(cpf: string): string {
    "Cliente com CPF " + cpf + " não localizado.\nDigite 1 para tentar novamente:"
  }

  /** `deletarCliente` of index.js: removes the first record whose CPF equals
      the reply; when none matches it asks again only if the next reply is "1". */
  function DeletarClienteLegado(cs: seq<Cliente>, answers: seq<Answer>): (r: Session)
    ensures IsSuffixOf(r.rest, answers)
    ensures r.status.Concluded? || r.status.NotFound? || r.status.OutOfInput?
    ensures !r.status.Concluded? ==> r.clientes == cs
    ensures r.status.OutOfInput? ==> r.rest == []
    ensures r.status.Concluded? ==> exists i :: IsFirstWithCpf(cs, i) && r.clientes == RemoveAt(cs, i)
    ensures UniqueIds(cs) ==> UniqueIds(r.clientes)
    decreases |answers|
  {
    var a := TrataPromptNullOuVazio(DeleteByCpfPrompt, answers);
    match a.outcome
    case Accepted(cpf) =>
      (match FindFirst(cs, HasCpf(cpf))
       case Some(i) =>
         assert IsFirstWithCpf(cs, i);
         RemoveAtKeepsUniqueIds(cs, i);
         Session(Concluded, RemoveAt(cs, i), a.rest,
                 a.events + [Alerted("Cliente com CPF " + cpf + " deletado com sucesso!")])
       case None =>
         if |a.rest| == 0 then Session(OutOfInput, cs, [], a.events)
         else
           var continua := a.rest[0];
           var shown := a.events + [Prompted(RetryDeletePrompt(cpf), None)];
           SuffixTransitive(a.rest[1..], a.rest, answers);
           if continua == Some("1") then
             var again := DeletarClienteLegado(cs, a.rest[1..]);
             SuffixTransitive(again.rest, a.rest[1..], answers);
             again.(events := shown + again.events)
           else
             Session(NotFound, cs, a.rest[1..], shown))
    case _ => Session(OutOfInput, cs, a.rest, a.events)
  }

  /** A successful deletion removed the first record holding the CPF read
      last. */
  lemma {:induction false} DeletarClienteLegadoConcluded(cs: seq<Cliente>, answers: seq<Answer>)
    ensures var r := DeletarClienteLegado(cs, answers);
      r.status.Concluded? ==>
        && |r.rest| < |answers|
        && exists i :: IsFirstWithCpf(cs, i) && r.clientes == RemoveAt(cs, i) && LastRead(answers, r.rest) == Some(cs[i].cpf)
    decreases |answers|
  {
    var r := DeletarClienteLegado(cs, answers);
    var a := TrataPromptNullOuVazio(DeleteByCpfPrompt, answers);
    if a.outcome.Accepted? {
      var cpf := a.outcome.value;
      assert LastRead(answers, a.rest) == Some(cpf);
      match FindFirst(cs, HasCpf(cpf))
      case Some(i) =>
        assert IsFirstWithCpf(cs, i) && cs[i].cpf == cpf;
        assert r.clientes == RemoveAt(cs, i) && r.rest == a.rest;
      case None =>
        if |a.rest| > 0 && a.rest[0] == Some("1") {
          var tail := a.rest[1..];
          SuffixTransitive(tail, a.rest, answers);
          var again := DeletarClienteLegado(cs, tail);
          var shown := a.events + [Prompted(RetryDeletePrompt(cpf), None)];
          assert r == again.(events := shown + again.events);
          DeletarClienteLegadoConcluded(cs, tail);
          LastReadThroughSuffix(answers, tail, again.rest);
        }
    }
  }

  /** When the deletion gives up, the CPF entered just before the declining
      reply matches no record, and that reply was not "1". */
  lemma {:induction false} DeletarClienteLegadoNotFound(cs: seq<Cliente>, answers: seq<Answer>)
    ensures var r := DeletarClienteLegado(cs, answers);
      r.status.NotFound? ==>
        && |r.rest| + 2 <= |answers|
        && LastRead(answers, r.rest) != Some("1")
        && NoRecordWithCpf(cs, answers[|answers| - |r.rest| - 2])
    decreases |answers|, 1
  {
    var a := TrataPromptNullOuVazio(DeleteByCpfPrompt, answers);
    if a.outcome.Accepted? && FindFirst(cs, HasCpf(a.outcome.value)).None? && |a.rest| > 0 {
      if a.rest[0] == Some("1") {
        DeletarClienteLegadoNotFoundRetried(cs, answers);
      } else {
        DeletarClienteLegadoNotFoundHere(cs, answers);
      }
    }
  }

  /** The CPF entered matches no record and the reply after it declines. */
  lemma DeletarClienteLegadoNotFoundHere(cs: seq<Cliente>, answers: seq<Answer>)
    requires var a := TrataPromptNullOuVazio(DeleteByCpfPrompt, answers);
      && a.outcome.Accepted? && FindFirst(cs, HasCpf(a.outcome.value)).None?
      && |a.rest| > 0 && a.rest[0] != Some("1")
    ensures var r := DeletarClienteLegado(cs, answers);
      && r.status.NotFound?
      && |r.rest| + 2 <= |answers|
      && LastRead(answers, r.rest) != Some("1")
      && NoRecordWithCpf(cs, answers[|answers| - |r.rest| - 2])
  {
    var r := DeletarClienteLegado(cs, answers);
    var a := TrataPromptNullOuVazio(DeleteByCpfPrompt, answers);
    var cpf := a.outcome.value;
    assert LastRead(answers, a.rest) == Some(cpf);
    var tail := a.rest[1..];
    SuffixTransitive(tail, a.rest, answers);
    assert r.rest == tail;
    assert answers[|answers| - |tail| - 2] == Some(cpf);
  }

  /** The CPF entered matches no record and the reply after it is "1": the
      new attempt's giving up carries over. */
  lemma {:induction false} DeletarClienteLegadoNotFoundRetried(cs: seq<Cliente>, answers: seq<Answer>)
    requires var a := TrataPromptNullOuVazio(DeleteByCpfPrompt, answers);
      && a.outcome.Accepted? && FindFirst(cs, HasCpf(a.outcome.value)).None?
      && |a.rest| > 0 && a.rest[0] == Some("1")
    ensures var r := DeletarClienteLegado(cs, answers);
      r.status.NotFound? ==>
        && |r.rest| + 2 <= |answers|
        && LastRead(answers, r.rest) != Some("1")
        && NoRecordWithCpf(cs, answers[|answers| - |r.rest| - 2])
    decreases |answers|, 0
  {
    var r := DeletarClienteLegado(cs, answers);
    var a := TrataPromptNullOuVazio(DeleteByCpfPrompt, answers);
    var tail := a.rest[1..];
    SuffixTransitive(tail, a.rest, answers);
    var again := DeletarClienteLegado(cs, tail);
    assert r.status == again.status && r.rest == again.rest;
    DeletarClienteLegadoNotFound(cs, tail);
    NotFoundThroughRetry(cs, answers, tail, r, again);
  }

  /** The CPF read last decides: on success the first record with that CPF
      is gone; when the operation gives up, the CPF entered just before the
      declining reply matches no record. */
  lemma DeletarClienteLegadoOutcome(cs: seq<Cliente>, answers: seq<Answer>)
    ensures var r := DeletarClienteLegado(cs, answers);
      && (r.status.Concluded? ==>
            && |r.rest| < |answers|
            && exists i :: IsFirstWithCpf(cs, i) && r.clientes == RemoveAt(cs, i) && LastRead(answers, r.rest) == Some(cs[i].cpf))
      && (r.status.NotFound? ==>
            && |r.rest| + 2 <= |answers|
            && LastRead(answers, r.rest) != Some("1")
            && NoRecordWithCpf(cs, answers[|answers| - |r.rest| - 2]))
  {
    DeletarClienteLegadoConcluded(cs, answers);
    DeletarClienteLegadoNotFound(cs, answers);
  }

  /** Blank replies closed by a CPF some record holds delete the first such
      record and read nothing more. */
  lemma DeletarClienteLegadoFinds(cs: seq<Cliente>, s: seq<Answer>, rest: seq<Answer>, answers: seq<Answer>)
    requires answers == s + rest && FilledAtEnd(s)
    requires exists j :: 0 <= j < |cs| && cs[j].cpf == FinalReply(s)
    ensures var r := DeletarClienteLegado(cs, answers);
      && FindFirst(cs, HasCpf(FinalReply(s))).Some?
      && r.status == Concluded
      && r.clientes == RemoveAt(cs, FindFirst(cs, HasCpf(FinalReply(s))).value)
      && r.rest == rest
  {
    TrataPromptNullOuVazioFilledAtEnd(DeleteByCpfPrompt, s, rest);
    var j :| 0 <= j < |cs| && cs[j].cpf == FinalReply(s);
    assert HasCpf(FinalReply(s))(cs[j]);
  }

  /** Blank replies closed by a CPF no record holds, then any reply but "1",
      end the operation with the list unchanged. */
  lemma DeletarClienteLegadoGivesUp(cs: seq<Cliente>, s: seq<Answer>, c: Answer, rest: seq<Answer>, answers: seq<Answer>)
    requires answers == s + ([c] + rest) && FilledAtEnd(s)
    requires forall j :: 0 <= j < |cs| ==> cs[j].cpf != FinalReply(s)
    requires c != Some("1")
    ensures var r := DeletarClienteLegado(cs, answers);
      r.status == NotFound && r.clientes == cs && r.rest == rest
  {
    TrataPromptNullOuVazioFilledAtEnd(DeleteByCpfPrompt, s, [c] + rest);
    assert ([c] + rest)[1..] == rest;
  }

  /** Blank replies closed by a CPF no record holds, then "1", start the
      deletion over on the replies after the "1": the outcome, the list and
      the unread script are those of the new attempt, whose dialogs close
      the trace. */
  lemma DeletarClienteLegadoRetries(cs: seq<Cliente>, s: seq<Answer>, rest: seq<Answer>, answers: seq<Answer>)
    requires answers == s + ([Some("1")] + rest) && FilledAtEnd(s)
    requires forall j :: 0 <= j < |cs| ==> cs[j].cpf != FinalReply(s)
    ensures var r := DeletarClienteLegado(cs, answers);
      var again := DeletarClienteLegado(cs, rest);
      && r.status == again.status
      && r.clientes == again.clientes
      && r.rest == again.rest
      && |again.events| < |r.events|
      && r.events[|r.events| - |again.events|..] == again.events
      && r.events[|r.events| - |again.events| - 1] == Prompted(RetryDeletePrompt(FinalReply(s)), None)
  {
    var a := TrataPromptNullOuVazio(DeleteByCpfPrompt, answers);
    TrataPromptNullOuVazioFilledAtEnd(DeleteByCpfPrompt, s, [Some("1")] + rest);
    var cpf := FinalReply(s);
    assert forall j :: 0 <= j < |cs| ==> !HasCpf(cpf)(cs[j]);
    assert FindFirst(cs, HasCpf(cpf)).None?;
    assert a.rest[0] == Some("1") && a.rest[1..] == rest;
    var again := DeletarClienteLegado(cs, rest);
    var shown := a.events + [Prompted(RetryDeletePrompt(cpf), None)];
    assert DeletarClienteLegado(cs, answers) == again.(events := shown + again.events);
  }

  /** No two records share a CPF. */
  predicate UniqueCpfs(cs: seq<Cliente>) {
    forall i, j :: 0 <= i < j < |cs| ==> cs[i].cpf != cs[j].cpf
  }

  /** With unique CPFs, a successful deletion filters out every record with
      the CPF read last, so none is left. */
  lemma DeletarClienteLegadoRemovesCpf(cs: seq<Cliente>, answers: seq<Answer>)
    requires UniqueCpfs(cs)
    ensures var r := DeletarClienteLegado(cs, answers);
      r.status.Concluded? ==>
        && |r.rest| < |answers|
        && LastRead(answers, r.rest).Some?
        && r.clientes == RemoveMatching(cs, HasCpf(LastRead(answers, r.rest).value))
        && forall c :: c in r.clientes ==> c.cpf != LastRead(answers, r.rest).value
  {
    var r := DeletarClienteLegado(cs, answers);
    DeletarClienteLegadoOutcome(cs, answers);
    if r.status.Concluded? {
      var i :| IsFirstWithCpf(cs, i) && r.clientes == RemoveAt(cs, i) && LastRead(answers, r.rest) == Some(cs[i].cpf);
      var p := HasCpf(cs[i].cpf);
      assert p(cs[i]);
      assert FindFirst(cs, p) == Some(i);
      assert AtMostOneMatch(cs, p);
      RemoveFirstIsRemoveMatching(cs, p);
    }
  }

  /** The entered CPF matches no record. */
  predicate NoRecordWithCpf(cs: seq<Cliente>, entered: Answer) {
    entered.Some? && forall j :: 0 <= j < |cs| ==> cs[j].cpf != entered.value
  }

  /** After a retry the reply read just before the last one is the same
      whether counted in the whole script or in the part the retry read. */
  lemma RetryReadsThrough(answers: seq<Answer>, mid: seq<Answer>, rest: seq<Answer>)
    requires IsSuffixOf(mid, answers) && IsSuffixOf(rest, mid)
    ensures |rest| + 2 <= |mid| ==> answers[|answers| - |rest| - 2] == mid[|mid| - |rest| - 2]
  {
    SuffixTransitive(rest, mid, answers);
  }

  /** A deletion that answers "1" ends as the new attempt does; if that one
      gave up, what it read stays true counted in the whole script. */
  lemma NotFoundThroughRetry(cs: seq<Cliente>, answers: seq<Answer>, mid: seq<Answer>, r: Session, again: Session)
    requires IsSuffixOf(mid, answers) && IsSuffixOf(again.rest, mid)
    requires r.status == again.status && r.rest == again.rest
    requires again.status.NotFound? ==>
      && |again.rest| + 2 <= |mid|
      && LastRead(mid, again.rest) != Some("1")
      && NoRecordWithCpf(cs, mid[|mid| - |again.rest| - 2])
    ensures r.status.NotFound? ==>
      && |r.rest| + 2 <= |answers|
      && LastRead(answers, r.rest) != Some("1")
      && NoRecordWithCpf(cs, answers[|answers| - |r.rest| - 2])
  {
    LastReadThroughSuffix(answers, mid, again.rest);
    RetryReadsThrough(answers, mid, again.rest);
  }

  /** `i` is the first record with its CPF: what `find` by CPF picks. */
  predicate IsFirstWithCpf(cs: seq<Cliente>, i: int) {
    0 <= i < |cs| && forall j :: 0 <= j < i ==> cs[j].cpf != cs[i].cpf
  }
}
