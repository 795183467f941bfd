/** The client list of index.ts and the operations on it: `cadastrarCliente`,
    `atualizarCliente`, `deletarCliente` and the lookup they share with
    `detalharCliente`. The list is a value: each operation returns the new
    list instead of mutating the global array. */
module Clients {

  import opened Common
  import opened Validation
  import opened Prompt

  /** `Cliente`. */
  datatype Cliente = Cliente(id: int, nome: string, cpf: string, telefone: string, endereco: string)

  /** The four fields an operation asks for, in order. */
  datatype Fields = Fields(nome: string, cpf: string, telefone: string, endereco: string)

  function FieldsOf(c: Cliente): Fields {
    Fields(c.nome, c.cpf, c.telefone, c.endereco)
  }

  /** What the acquisition loop can hand back for a record: every field
      non-empty, the CPF and the phone accepted by their validators. */
  predicate ValidFields(f: Fields) {
    && f.nome != ""
    && ValidaCPF(f.cpf) == Sucesso(f.cpf)
    && ValidaTelefone(f.telefone) == Sucesso(f.telefone)
    && f.endereco != ""
  }

  predicate UniqueIds(cs: seq<Cliente>) {
    forall i, j :: 0 <= i < j < |cs| ==> cs[i].id != cs[j].id
  }

  // ---------------------------------------------------------------------------
  // Lookup
  // ---------------------------------------------------------------------------

  /** `Array.prototype.find`, returning the index of the first match. */
  function FindFirst(cs: seq<Cliente>, p: Cliente -> bool): (r: Option<nat>)
    ensures r.Some? ==> r.value < |cs| && p(cs[r.value])
    ensures r.Some? ==> forall j :: 0 <= j < r.value ==> !p(cs[j])
    ensures r.None? ==> forall j :: 0 <= j < |cs| ==> !p(cs[j])
  {
    if |cs| == 0 then None
    else if p(cs[0]) then Some(0)
    else match FindFirst(cs[1..], p)
      case None => None
      case Some(k) => Some(k + 1)
  }

  function HasId(id: int): Cliente -> bool {
    (c: Cliente) => c.id == id
  }

  /** `listaClientes.find(cliente => cliente.id === id)`, as used by
      `detalharCliente`, `atualizarCliente` and `deletarCliente`. */
  function FindById(cs: seq<Cliente>, id: int): (r: Option<nat>)
    ensures r.Some? ==> r.value < |cs| && cs[r.value].id == id
    ensures r.Some? ==> forall j :: 0 <= j < r.value ==> cs[j].id != id
    ensures r.None? <==> forall j :: 0 <= j < |cs| ==> cs[j].id != id
  {
    FindFirst(cs, HasId(id))
  }

  /** `splice(index, 1)`. */
  function RemoveAt(cs: seq<Cliente>, i: nat): seq<Cliente>
    requires i < |cs|
  {
    cs[..i] + cs[i + 1..]
  }

  lemma RemoveAtKeepsUniqueIds(cs: seq<Cliente>, i: nat)
    requires i < |cs|
    ensures UniqueIds(cs) ==> UniqueIds(RemoveAt(cs, i))
  {
    var r := RemoveAt(cs, i);
    assert forall j :: 0 <= j < |r| ==> r[j] == cs[if j < i then j else j + 1];
  }

  /** Every record satisfying `p` left out, the others kept in order. */
  function RemoveMatching(cs: seq<Cliente>, p: Cliente -> bool): (r: seq<Cliente>)
    ensures forall c :: c in r ==> c in cs && !p(c)
  {
    if |cs| == 0 then []
    else (if p(cs[0]) then [] else [cs[0]]) + RemoveMatching(cs[1..], p)
  }

  predicate AtMostOneMatch(cs: seq<Cliente>, p: Cliente -> bool) {
    forall i, j :: 0 <= i < j < |cs| && p(cs[i]) ==> !p(cs[j])
  }

  /** Without a match nothing is filtered out. */
  lemma {:induction false} RemoveMatchingNoMatch(cs: seq<Cliente>, p: Cliente -> bool)
    requires forall j :: 0 <= j < |cs| ==> !p(cs[j])
    ensures RemoveMatching(cs, p) == cs
  {
    if |cs| > 0 {
      var tail := cs[1..];
      assert !p(cs[0]);
      forall j | 0 <= j < |tail|
        ensures !p(tail[j])
      {
        assert tail[j] == cs[j + 1];
      }
      RemoveMatchingNoMatch(tail, p);
      assert RemoveMatching(cs, p) == [cs[0]] + RemoveMatching(tail, p);
      assert [cs[0]] + tail == cs;
    }
  }

  lemma AtMostOneMatchTail(cs: seq<Cliente>, p: Cliente -> bool)
    requires |cs| > 0 && AtMostOneMatch(cs, p)
    ensures AtMostOneMatch(cs[1..], p)
  {
    var tail := cs[1..];
    forall i, j | 0 <= i < j < |tail| && p(tail[i])
      ensures !p(tail[j])
    {
      assert tail[i] == cs[i + 1] && tail[j] == cs[j + 1];
    }
  }

  lemma RemoveAtCons(cs: seq<Cliente>, k: nat)
    requires k + 1 < |cs|
    ensures RemoveAt(cs, k + 1) == [cs[0]] + RemoveAt(cs[1..], k)
  {
    assert cs[..k + 1] == [cs[0]] + cs[1..][..k];
    assert cs[k + 2..] == cs[1..][k + 1..];
  }

  /** When at most one record matches, removing the first match removes them all. */
  lemma {:induction false} RemoveFirstIsRemoveMatching(cs: seq<Cliente>, p: Cliente -> bool)
    requires AtMostOneMatch(cs, p)
    ensures FindFirst(cs, p).Some? ==> RemoveAt(cs, FindFirst(cs, p).value) == RemoveMatching(cs, p)
    ensures FindFirst(cs, p).None? ==> RemoveMatching(cs, p) == cs
  {
    if |cs| > 0 {
      var tail := cs[1..];
      if p(cs[0]) {
        assert forall j :: 0 <= j < |tail| ==> !p(tail[j]) by {
          forall j | 0 <= j < |tail|
            ensures !p(tail[j])
          {
            assert tail[j] == cs[j + 1];
          }
        }
        RemoveMatchingNoMatch(tail, p);
        assert RemoveAt(cs, 0) == tail;
      } else {
        AtMostOneMatchTail(cs, p);
        RemoveFirstIsRemoveMatching(tail, p);
        match FindFirst(tail, p)
        case None =>
        case Some(k) =>
          RemoveAtCons(cs, k);
      }
    }
  }

  // ---------------------------------------------------------------------------
  // Acquiring the four fields
  // ---------------------------------------------------------------------------

  /** The four values were typed, in this order, at increasing positions of
      the script, the last of them being the last reply read. */
  predicate ReadInOrder(answers: seq<Answer>, rest: seq<Answer>, f: Fields) {
    exists i0, i1, i2, i3 | 0 <= i0 < i1 < i2 < i3 && i3 == |answers| - |rest| - 1 ::
      && answers[i0] == Some(f.nome)
      && answers[i1] == Some(f.cpf)
      && answers[i2] == Some(f.telefone)
      && answers[i3] == Some(f.endereco)
  }

  /** Four acquisitions that each read on from the previous one read their
      values in order. */
  lemma ChainedReads(answers: seq<Answer>, r1: seq<Answer>, r2: seq<Answer>, r3: seq<Answer>, r4: seq<Answer>, f: Fields)
    requires IsSuffixOf(r1, answers) && IsSuffixOf(r2, r1) && IsSuffixOf(r3, r2) && IsSuffixOf(r4, r3)
    requires |r1| < |answers| && |r2| < |r1| && |r3| < |r2| && |r4| < |r3|
    requires LastRead(answers, r1) == Some(f.nome) && LastRead(r1, r2) == Some(f.cpf)
    requires LastRead(r2, r3) == Some(f.telefone) && LastRead(r3, r4) == Some(f.endereco)
    ensures |r4| < |answers| && ReadInOrder(answers, r4, f)
  {
    SuffixTransitive(r2, r1, answers);
    SuffixTransitive(r3, r2, answers);
    SuffixTransitive(r4, r3, answers);
    LastReadThroughSuffix(answers, r1, r2);
    LastReadThroughSuffix(answers, r2, r3);
    LastReadThroughSuffix(answers, r3, r4);
    var n := |answers|;
    assert answers[n - |r1| - 1] == Some(f.nome);
    assert answers[n - |r2| - 1] == Some(f.cpf);
    assert answers[n - |r3| - 1] == Some(f.telefone);
    assert answers[n - |r4| - 1] == Some(f.endereco);
  }

  /** The fields were all accepted, or the sequence stopped at one of them
      with a cancellation or with the script exhausted. */
  datatype FieldsOutcome = AllAccepted(fields: Fields) | Interrupted(stop: Outcome)

  datatype FieldsAcquisition = FieldsAcquisition(outcome: FieldsOutcome, rest: seq<Answer>, events: seq<Event>)

  /** The default shown with each of the four prompts: none when adding, the
      current values when updating. */
  function FieldDefaults(defaults: Option<Fields>): (d: seq<Option<string>>)
    ensures |d| == 4
    ensures defaults.None? ==> forall k :: 0 <= k < 4 ==> d[k].None?
    ensures defaults.Some? ==> d == [Some(defaults.value.nome), Some(defaults.value.cpf),
                                     Some(defaults.value.telefone), Some(defaults.value.endereco)]
  {
    match defaults
    case None => [None, None, None, None]
    case Some(f) => [Some(f.nome), Some(f.cpf), Some(f.telefone), Some(f.endereco)]
  }

  /** The validator of field `k`: `validaCPF` for the CPF, `validaTelefone`
      for the phone, none for the name and the address. */
  function FieldValidator(k: nat): Option<Validator> {
    if k == 1 then Some(ValidaCPF) else if k == 2 then Some(ValidaTelefone) else None
  }

  /** Name, CPF, phone and address, each through `trataPrompt` with cancelling
      allowed and no cancellation message; the CPF with `validaCPF`, the phone
      with `validaTelefone`. The first field not accepted stops the sequence. */
  function AcquireFields(prompts: seq<string>, defaults: Option<Fields>, answers: seq<Answer>): (r: FieldsAcquisition)
    requires |prompts| == 4
    ensures IsSuffixOf(r.rest, answers)
    ensures r.outcome.AllAccepted? ==>
      && ValidFields(r.outcome.fields)
      && |r.rest| < |answers|
    ensures r.outcome.Interrupted? ==> !r.outcome.stop.Accepted?
    ensures r.outcome == Interrupted(Exhausted) ==> r.rest == []
    ensures r.outcome.Interrupted? && r.outcome.stop.Cancelled? ==>
      r.outcome.stop.message == DefaultCancelMessage
  {
    var d := FieldDefaults(defaults);
    var nome := TrataPrompt(prompts[0], true, d[0], FieldValidator(0), None, answers);
    if !nome.outcome.Accepted? then FieldsAcquisition(Interrupted(nome.outcome), nome.rest, nome.events)
    else
      var cpf := TrataPrompt(prompts[1], true, d[1], FieldValidator(1), None, nome.rest);
      SuffixTransitive(cpf.rest, nome.rest, answers);
      if !cpf.outcome.Accepted? then
        FieldsAcquisition(Interrupted(cpf.outcome), cpf.rest, nome.events + cpf.events)
      else
        var telefone := TrataPrompt(prompts[2], true, d[2], FieldValidator(2), None, cpf.rest);
        SuffixTransitive(telefone.rest, cpf.rest, answers);
        var shown := nome.events + cpf.events + telefone.events;
        if !telefone.outcome.Accepted? then
          FieldsAcquisition(Interrupted(telefone.outcome), telefone.rest, shown)
        else
          var endereco := TrataPrompt(prompts[3], true, d[3], FieldValidator(3), None, telefone.rest);
          SuffixTransitive(endereco.rest, telefone.rest, answers);
          if !endereco.outcome.Accepted? then
            FieldsAcquisition(Interrupted(endereco.outcome), endereco.rest, shown + endereco.events)
          else
            var f := Fields(nome.outcome.value, cpf.outcome.value, telefone.outcome.value, endereco.outcome.value);
            FieldsAcquisition(AllAccepted(f), endereco.rest, shown + endereco.events)
  }

  /** A cancelled acquisition stopped on a `null` reply of the script. */
  lemma AcquireFieldsCancelledOnNull(prompts: seq<string>, defaults: Option<Fields>, answers: seq<Answer>)
    requires |prompts| == 4
    ensures var r := AcquireFields(prompts, defaults, answers);
      r.outcome.Interrupted? && r.outcome.stop.Cancelled? ==>
        |r.rest| < |answers| && LastRead(answers, r.rest).None?
  {
    var r := AcquireFields(prompts, defaults, answers);
    var d := FieldDefaults(defaults);
    var nome := TrataPrompt(prompts[0], true, d[0], FieldValidator(0), None, answers);
    if !nome.outcome.Accepted? {
      assert r.rest == nome.rest && r.outcome == Interrupted(nome.outcome);
    } else {
      var cpf := TrataPrompt(prompts[1], true, d[1], FieldValidator(1), None, nome.rest);
      if !cpf.outcome.Accepted? {
        assert r.rest == cpf.rest && r.outcome == Interrupted(cpf.outcome);
        LastReadThroughSuffix(answers, nome.rest, cpf.rest);
      } else {
        var telefone := TrataPrompt(prompts[2], true, d[2], FieldValidator(2), None, cpf.rest);
        SuffixTransitive(cpf.rest, nome.rest, answers);
        if !telefone.outcome.Accepted? {
          assert r.rest == telefone.rest && r.outcome == Interrupted(telefone.outcome);
          LastReadThroughSuffix(answers, cpf.rest, telefone.rest);
        } else {
          var endereco := TrataPrompt(prompts[3], true, d[3], FieldValidator(3), None, telefone.rest);
          SuffixTransitive(telefone.rest, cpf.rest, answers);
          if !endereco.outcome.Accepted? {
            assert r.rest == endereco.rest && r.outcome == Interrupted(endereco.outcome);
            LastReadThroughSuffix(answers, telefone.rest, endereco.rest);
          }
        }
      }
    }
  }

  /** The four accepted values are replies of the script, read in order. */
  lemma AcquireFieldsReadsInOrder(prompts: seq<string>, defaults: Option<Fields>, answers: seq<Answer>)
    requires |prompts| == 4
    ensures var r := AcquireFields(prompts, defaults, answers);
      r.outcome.AllAccepted? ==> ReadInOrder(answers, r.rest, r.outcome.fields)
  {
    var r := AcquireFields(prompts, defaults, answers);
    if r.outcome.AllAccepted? {
      var d := FieldDefaults(defaults);
      var nome := TrataPrompt(prompts[0], true, d[0], FieldValidator(0), None, answers);
      var cpf := TrataPrompt(prompts[1], true, d[1], FieldValidator(1), None, nome.rest);
      var telefone := TrataPrompt(prompts[2], true, d[2], FieldValidator(2), None, cpf.rest);
      var endereco := TrataPrompt(prompts[3], true, d[3], FieldValidator(3), None, telefone.rest);
      assert r.rest == endereco.rest;
      assert r.outcome.fields == Fields(nome.outcome.value, cpf.outcome.value, telefone.outcome.value, endereco.outcome.value);
      ChainedReads(answers, nome.rest, cpf.rest, telefone.rest, endereco.rest, r.outcome.fields);
    }
  }

  /** Four attempt sequences, each ending in text its field accepts, give
      exactly those four texts and leave what follows them unread. */
  lemma AcquireFieldsConcludes(prompts: seq<string>, defaults: Option<Fields>,
                               s1: seq<Answer>, s2: seq<Answer>, s3: seq<Answer>, s4: seq<Answer>,
                               rest: seq<Answer>, answers: seq<Answer>)
    requires |prompts| == 4
    requires answers == s1 + (s2 + (s3 + (s4 + rest)))
    requires AcceptedAtEnd(s1, true, None) && AcceptedAtEnd(s2, true, Some(ValidaCPF))
    requires AcceptedAtEnd(s3, true, Some(ValidaTelefone)) && AcceptedAtEnd(s4, true, None)
    ensures var r := AcquireFields(prompts, defaults, answers);
      && r.outcome == AllAccepted(Fields(FinalReply(s1), FinalReply(s2), FinalReply(s3), FinalReply(s4)))
      && r.rest == rest
  {
    var d := FieldDefaults(defaults);
    TrataPromptAcceptsAtEnd(prompts[0], true, d[0], FieldValidator(0), None, s1, s2 + (s3 + (s4 + rest)));
    TrataPromptAcceptsAtEnd(prompts[1], true, d[1], FieldValidator(1), None, s2, s3 + (s4 + rest));
    TrataPromptAcceptsAtEnd(prompts[2], true, d[2], FieldValidator(2), None, s3, s4 + rest);
    TrataPromptAcceptsAtEnd(prompts[3], true, d[3], FieldValidator(3), None, s4, rest);
  }

  /** The attempt sequences laid end to end. */
  function Concat(ss: seq<seq<Answer>>): seq<Answer> {
    if |ss| == 0 then [] else ss[0] + Concat(ss[1..])
  }

  /** The script accepts the first `k` fields, through the attempt sequences
      `accepted`, and then "Cancelar" is clicked at field `k` after the
      retried replies of `t`; `rest` follows. */
  predicate CancelledAtField(k: nat, accepted: seq<seq<Answer>>, t: seq<Answer>, rest: seq<Answer>, answers: seq<Answer>) {
    && k < 4
    && |accepted| == k
    && (forall i :: 0 <= i < k ==> AcceptedAtEnd(accepted[i], true, FieldValidator(i)))
    && CancelledAtEnd(t, FieldValidator(k))
    && answers == Concat(accepted) + (t + rest)
  }

  /** "Cancelar" at the name prompt. */
  lemma CancelsAtNome(prompts: seq<string>, defaults: Option<Fields>, t: seq<Answer>, rest: seq<Answer>)
    requires |prompts| == 4 && CancelledAtEnd(t, None)
    ensures var r := AcquireFields(prompts, defaults, t + rest);
      r.outcome == Interrupted(Cancelled(DefaultCancelMessage)) && r.rest == rest
  {
    var d := FieldDefaults(defaults);
    TrataPromptCancelsAtEnd(prompts[0], d[0], FieldValidator(0), None, t, rest);
  }

  /** "Cancelar" at the CPF prompt, after the name was accepted. */
  lemma CancelsAtCpf(prompts: seq<string>, defaults: Option<Fields>, s1: seq<Answer>,
                     t: seq<Answer>, rest: seq<Answer>)
    requires |prompts| == 4 && AcceptedAtEnd(s1, true, None) && CancelledAtEnd(t, Some(ValidaCPF))
    ensures var r := AcquireFields(prompts, defaults, s1 + (t + rest));
      r.outcome == Interrupted(Cancelled(DefaultCancelMessage)) && r.rest == rest
  {
    var d := FieldDefaults(defaults);
    TrataPromptAcceptsAtEnd(prompts[0], true, d[0], FieldValidator(0), None, s1, t + rest);
    TrataPromptCancelsAtEnd(prompts[1], d[1], FieldValidator(1), None, t, rest);
  }

  /** "Cancelar" at the phone prompt, after the name and the CPF were accepted. */
  lemma CancelsAtTelefone(prompts: seq<string>, defaults: Option<Fields>, s1: seq<Answer>, s2: seq<Answer>,
                          t: seq<Answer>, rest: seq<Answer>)
    requires |prompts| == 4 && AcceptedAtEnd(s1, true, None) && AcceptedAtEnd(s2, true, Some(ValidaCPF))
    requires CancelledAtEnd(t, Some(ValidaTelefone))
    ensures var r := AcquireFields(prompts, defaults, s1 + (s2 + (t + rest)));
      r.outcome == Interrupted(Cancelled(DefaultCancelMessage)) && r.rest == rest
  {
    var d := FieldDefaults(defaults);
    TrataPromptAcceptsAtEnd(prompts[0], true, d[0], FieldValidator(0), None, s1, s2 + (t + rest));
    TrataPromptAcceptsAtEnd(prompts[1], true, d[1], FieldValidator(1), None, s2, t + rest);
    TrataPromptCancelsAtEnd(prompts[2], d[2], FieldValidator(2), None, t, rest);
  }

  /** "Cancelar" at the address prompt, after the first three fields were accepted. */
  lemma CancelsAtEndereco(prompts: seq<string>, defaults: Option<Fields>, s1: seq<Answer>, s2: seq<Answer>,
                          s3: seq<Answer>, t: seq<Answer>, rest: seq<Answer>)
    requires |prompts| == 4 && AcceptedAtEnd(s1, true, None) && AcceptedAtEnd(s2, true, Some(ValidaCPF))
    requires AcceptedAtEnd(s3, true, Some(ValidaTelefone)) && CancelledAtEnd(t, None)
    ensures var r := AcquireFields(prompts, defaults, s1 + (s2 + (s3 + (t + rest))));
      r.outcome == Interrupted(Cancelled(DefaultCancelMessage)) && r.rest == rest
  {
    var d := FieldDefaults(defaults);
    TrataPromptAcceptsAtEnd(prompts[0], true, d[0], FieldValidator(0), None, s1, s2 + (s3 + (t + rest)));
    TrataPromptAcceptsAtEnd(prompts[1], true, d[1], FieldValidator(1), None, s2, s3 + (t + rest));
    TrataPromptAcceptsAtEnd(prompts[2], true, d[2], FieldValidator(2), None, s3, t + rest);
    TrataPromptCancelsAtEnd(prompts[3], d[3], FieldValidator(3), None, t, rest);
  }

  /** A `null` reply at any of the four field prompts cancels the whole
      acquisition with 'Operação cancelada' (no message is passed), and
      nothing after it is read. */
  lemma AcquireFieldsCancels(prompts: seq<string>, defaults: Option<Fields>, k: nat,
                             accepted: seq<seq<Answer>>, t: seq<Answer>, rest: seq<Answer>, answers: seq<Answer>)
    requires |prompts| == 4
    requires CancelledAtField(k, accepted, t, rest, answers)
    ensures var r := AcquireFields(prompts, defaults, answers);
      r.outcome == Interrupted(Cancelled(DefaultCancelMessage)) && r.rest == rest
  {
    var tail := t + rest;
    if k == 0 {
      assert answers == tail;
      CancelsAtNome(prompts, defaults, t, rest);
    } else {
      var s1 := accepted[0];
      assert Concat(accepted) == s1 + Concat(accepted[1..]);
      assert Concat(accepted[k..]) == [];
      if k == 1 {
        assert answers == s1 + tail;
        CancelsAtCpf(prompts, defaults, s1, t, rest);
      } else {
        var s2 := accepted[1];
        assert FieldValidator(1) == Some(ValidaCPF);
        assert accepted[1..][1..] == accepted[2..];
        assert Concat(accepted[1..]) == s2 + Concat(accepted[2..]);
        if k == 2 {
          assert answers == s1 + (s2 + tail);
          CancelsAtTelefone(prompts, defaults, s1, s2, t, rest);
        } else {
          var s3 := accepted[2];
          assert FieldValidator(2) == Some(ValidaTelefone);
          assert accepted[2..][1..] == accepted[3..];
          assert Concat(accepted[2..]) == s3 + Concat(accepted[3..]);
          assert answers == s1 + (s2 + (s3 + tail));
          CancelsAtEndereco(prompts, defaults, s1, s2, s3, t, rest);
        }
      }
    }
  }

  /** Every dialog of the acquisition is the prompt of one of the four
      fields, shown with the cancel hint and with that same field's default. */
  lemma AcquireFieldsPromptsCarryDefaults(prompts: seq<string>, defaults: Option<Fields>, answers: seq<Answer>)
    requires |prompts| == 4
    ensures var r := AcquireFields(prompts, defaults, answers);
      forall e | e in r.events && e.Prompted? ::
        exists k :: 0 <= k < 4 && e == Prompted(PromptShown(prompts[k], true), FieldDefaults(defaults)[k])
  {
    var d := FieldDefaults(defaults);
    var nome := TrataPrompt(prompts[0], true, d[0], FieldValidator(0), None, answers);
    TrataPromptSamePrompt(prompts[0], true, d[0], FieldValidator(0), None, answers);
    var cpf := TrataPrompt(prompts[1], true, d[1], FieldValidator(1), None, nome.rest);
    TrataPromptSamePrompt(prompts[1], true, d[1], FieldValidator(1), None, nome.rest);
    var telefone := TrataPrompt(prompts[2], true, d[2], FieldValidator(2), None, cpf.rest);
    TrataPromptSamePrompt(prompts[2], true, d[2], FieldValidator(2), None, cpf.rest);
    var endereco := TrataPrompt(prompts[3], true, d[3], FieldValidator(3), None, telefone.rest);
    TrataPromptSamePrompt(prompts[3], true, d[3], FieldValidator(3), None, telefone.rest);
    var r := AcquireFields(prompts, defaults, answers);
    forall e | e in r.events && e.Prompted?
      ensures exists k :: 0 <= k < 4 && e == Prompted(PromptShown(prompts[k], true), d[k])
    {
      if e in nome.events {
        assert e == Prompted(PromptShown(prompts[0], true), d[0]);
      } else if e in cpf.events {
        assert e == Prompted(PromptShown(prompts[1], true), d[1]);
      } else if e in telefone.events {
        assert e == Prompted(PromptShown(prompts[2], true), d[2]);
      } else {
        assert e in endereco.events;
        assert e == Prompted(PromptShown(prompts[3], true), d[3]);
      }
    }
  }

  /** The prompt of field `k`: its text with the cancel hint, and its default. */
  function FieldPrompt(prompts: seq<string>, defaults: Option<Fields>, k: nat): Event
    requires |prompts| == 4 && k < 4
  {
    Prompted(PromptShown(prompts[k], true), FieldDefaults(defaults)[k])
  }

  /** The dialogs of one field's attempts when the acquisition reaches it on
      the script `a`. */
  function FieldEvents(prompts: seq<string>, defaults: Option<Fields>, k: nat, a: seq<Answer>): seq<Event>
    requires |prompts| == 4 && k < 4
  {
    TrataPrompt(prompts[k], true, FieldDefaults(defaults)[k], FieldValidator(k), None, a).events
  }

  /** A completed acquisition shows the dialogs of the four fields one after
      the other. */
  lemma AcquireFieldsEvents(prompts: seq<string>, defaults: Option<Fields>,
                            s1: seq<Answer>, s2: seq<Answer>, s3: seq<Answer>, s4: seq<Answer>,
                            rest: seq<Answer>, answers: seq<Answer>)
    requires |prompts| == 4
    requires answers == s1 + (s2 + (s3 + (s4 + rest)))
    requires AcceptedAtEnd(s1, true, None) && AcceptedAtEnd(s2, true, Some(ValidaCPF))
    requires AcceptedAtEnd(s3, true, Some(ValidaTelefone)) && AcceptedAtEnd(s4, true, None)
    ensures AcquireFields(prompts, defaults, answers).events
      == FieldEvents(prompts, defaults, 0, answers) + FieldEvents(prompts, defaults, 1, s2 + (s3 + (s4 + rest)))
         + FieldEvents(prompts, defaults, 2, s3 + (s4 + rest)) + FieldEvents(prompts, defaults, 3, s4 + rest)
  {
    var d := FieldDefaults(defaults);
    TrataPromptAcceptsAtEnd(prompts[0], true, d[0], FieldValidator(0), None, s1, s2 + (s3 + (s4 + rest)));
    TrataPromptAcceptsAtEnd(prompts[1], true, d[1], FieldValidator(1), None, s2, s3 + (s4 + rest));
    TrataPromptAcceptsAtEnd(prompts[2], true, d[2], FieldValidator(2), None, s3, s4 + rest);
    TrataPromptAcceptsAtEnd(prompts[3], true, d[3], FieldValidator(3), None, s4, rest);
  }

  /** The attempts at one field, ending in accepted text, show that field's
      own prompt and default before every reply. */
  lemma FieldEventsTrace(prompts: seq<string>, defaults: Option<Fields>, k: nat, s: seq<Answer>, rest: seq<Answer>)
    requires |prompts| == 4 && k < 4
    requires AcceptedAtEnd(s, true, FieldValidator(k))
    ensures PromptTrace(FieldEvents(prompts, defaults, k, s + rest), FieldPrompt(prompts, defaults, k), |s|)
  {
    TrataPromptAcceptsAtEndTrace(prompts[k], true, FieldDefaults(defaults)[k], FieldValidator(k), None, s, rest);
  }

  /** The dialogs of a completed acquisition, field by field: the attempts at
      field k come k-th, `2 |s_k| - 1` dialogs of them, each attempt opened by
      field k's own prompt with field k's own default. */
  lemma AcquireFieldsTrace(prompts: seq<string>, defaults: Option<Fields>,
                           s1: seq<Answer>, s2: seq<Answer>, s3: seq<Answer>, s4: seq<Answer>,
                           rest: seq<Answer>, answers: seq<Answer>)
    requires |prompts| == 4
    requires answers == s1 + (s2 + (s3 + (s4 + rest)))
    requires AcceptedAtEnd(s1, true, None) && AcceptedAtEnd(s2, true, Some(ValidaCPF))
    requires AcceptedAtEnd(s3, true, Some(ValidaTelefone)) && AcceptedAtEnd(s4, true, None)
    ensures var e1, e2 := FieldEvents(prompts, defaults, 0, answers), FieldEvents(prompts, defaults, 1, s2 + (s3 + (s4 + rest)));
      var e3, e4 := FieldEvents(prompts, defaults, 2, s3 + (s4 + rest)), FieldEvents(prompts, defaults, 3, s4 + rest);
      && AcquireFields(prompts, defaults, answers).events == e1 + e2 + e3 + e4
      && PromptTrace(e1, FieldPrompt(prompts, defaults, 0), |s1|)
      && PromptTrace(e2, FieldPrompt(prompts, defaults, 1), |s2|)
      && PromptTrace(e3, FieldPrompt(prompts, defaults, 2), |s3|)
      && PromptTrace(e4, FieldPrompt(prompts, defaults, 3), |s4|)
  {
    AcquireFieldsEvents(prompts, defaults, s1, s2, s3, s4, rest, answers);
    FieldEventsTrace(prompts, defaults, 0, s1, s2 + (s3 + (s4 + rest)));
    FieldEventsTrace(prompts, defaults, 1, s2, s3 + (s4 + rest));
    FieldEventsTrace(prompts, defaults, 2, s3, s4 + rest);
    FieldEventsTrace(prompts, defaults, 3, s4, rest);
  }

  // ---------------------------------------------------------------------------
  // The operations
  // ---------------------------------------------------------------------------

  const Separator := "====================================\n"

  const CadastroPrompts: seq<string> := [
    "Cadastrar Cliente\n" + Separator + "\nPasso 1/4\nInforme o nome do cliente:",
    "Passo 2/4\nInforme o CPF (apenas números):",
    "Passo 3/4\nInforme o telefone (com 9 dígitos e apenas números):",
    "Passo 4/4\nInforme o endereço:"
  ]

  const AtualizacaoPrompts: seq<string> := [
    "Atualizar Cliente\n" + Separator + "\nPasso 1/4\nAtualize o valor para o nome:",
    "Passo 2/4\nAtualize o valor para o cpf:",
    "Passo 3/4\nAtualize o valor para o telefone:",
    "Passo 4/4\nAtualize o valor para o endereço:"
  ]

  /** How an operation ended: the list was changed, a field was cancelled
      (the message the `catch` alerts), the id matched no record, or the
      script ran out. */
  datatype Status = Concluded | Aborted(message: string) | NotFound | OutOfInput

  datatype Session = Session(status: Status, clientes: seq<Cliente>, rest: seq<Answer>, events: seq<Event>)

  /** `newId` is one more than the largest id in `cs`, or 1 for an empty list. */
  predicate IsNextId(cs: seq<Cliente>, newId: int) {
    && (forall i :: 0 <= i < |cs| ==> cs[i].id < newId)
    && (|cs| == 0 ==> newId == 1)
    && (|cs| > 0 ==> exists i :: 0 <= i < |cs| && cs[i].id == newId - 1)
  }

  /** `Math.max(...listaClientes.map(cli => cli.id))` on a non-empty list. */
  function MaxId(cs: seq<Cliente>): (m: int)
    requires |cs| > 0
    ensures forall i :: 0 <= i < |cs| ==> cs[i].id <= m
    ensures exists i :: 0 <= i < |cs| && cs[i].id == m
  {
    if |cs| == 1 then cs[0].id
    else
      var m := MaxId(cs[1..]);
      assert forall i :: 1 <= i < |cs| ==> cs[i] == cs[1..][i - 1];
      if cs[0].id > m then cs[0].id else m
  }

  /** `idMaximo + 1`, where `idMaximo` is 0 for an empty list. */
  function NextId(cs: seq<Cliente>): (n: int)
    ensures IsNextId(cs, n)
  {
    (if |cs| > 0 then MaxId(cs) else 0) + 1
  }

  /** Appending a record whose id is above every existing id keeps the old
      records in place and the ids unique. */
  lemma AppendKeepsUniqueIds(cs: seq<Cliente>, c: Cliente)
    requires forall j :: 0 <= j < |cs| ==> cs[j].id < c.id
    ensures (cs + [c])[..|cs|] == cs && (cs + [c])[|cs|] == c
    ensures UniqueIds(cs) ==> UniqueIds(cs + [c])
  {
    var all := cs + [c];
    assert all[..|cs|] == cs;
    assert forall j :: 0 <= j < |cs| ==> all[j] == cs[j];
  }

  /** `cadastrarCliente`: all four fields are acquired before the list is
      touched; a cancellation at any of them leaves it unchanged. */
  function CadastrarCliente(cs: seq<Cliente>, answers: seq<Answer>): (r: Session)
    ensures IsSuffixOf(r.rest, answers)
    ensures r.status.Concluded? || r.status.Aborted? || r.status.OutOfInput?
    ensures r.status.Concluded? ==>
      && |r.clientes| == |cs| + 1
      && r.clientes[..|cs|] == cs
      && IsNextId(cs, r.clientes[|cs|].id)
      && ValidFields(FieldsOf(r.clientes[|cs|]))
      && ReadInOrder(answers, r.rest, FieldsOf(r.clientes[|cs|]))
    ensures var a := AcquireFields(CadastroPrompts, None, answers);
      && (r.status.Concluded? <==> a.outcome.AllAccepted?)
      && (r.status.Concluded? ==> FieldsOf(r.clientes[|cs|]) == a.outcome.fields)
      && (r.status.Aborted? <==> a.outcome.Interrupted? && a.outcome.stop.Cancelled?)
    ensures !r.status.Concluded? ==> r.clientes == cs
    ensures r.status.Aborted? ==> r.status.message == DefaultCancelMessage
    ensures UniqueIds(cs) ==> UniqueIds(r.clientes)
  {
    var acquired := AcquireFields(CadastroPrompts, None, answers);
    match acquired.outcome
    case AllAccepted(f) =>
      AcquireFieldsReadsInOrder(CadastroPrompts, None, answers);
      var novoCliente := Cliente(NextId(cs), f.nome, f.cpf, f.telefone, f.endereco);
      AppendKeepsUniqueIds(cs, novoCliente);
      Session(Concluded, cs + [novoCliente], acquired.rest,
              acquired.events + [Alerted("Cliente " + f.nome + " cadastro com sucesso!")])
    case Interrupted(Cancelled(message)) =>
      Session(Aborted(message), cs, acquired.rest, acquired.events + [Alerted(message)])
    case Interrupted(_) =>
      Session(OutOfInput, cs, acquired.rest, acquired.events)
  }

  /** `atualizarCliente` for an id already read: the first record with that id
      gets four new field values, each asked with the current value as default. */
  function AtualizarCliente(cs: seq<Cliente>, id: int, answers: seq<Answer>): (r: Session)
    ensures IsSuffixOf(r.rest, answers)
    ensures r.status.NotFound? <==> forall j :: 0 <= j < |cs| ==> cs[j].id != id
    ensures !r.status.Concluded? ==> r.clientes == cs
    ensures r.status.Concluded? ==> FindById(cs, id).Some? && |r.clientes| == |cs|
    ensures FindById(cs, id).Some? ==>
      var i := FindById(cs, id).value;
      var a := AcquireFields(AtualizacaoPrompts, Some(FieldsOf(cs[i])), answers);
      && (r.status.Concluded? <==> a.outcome.AllAccepted?)
      && (r.status.Concluded? ==> r.clientes[i] == Cliente(id, a.outcome.fields.nome, a.outcome.fields.cpf,
                                                           a.outcome.fields.telefone, a.outcome.fields.endereco))
      && (r.status.Aborted? <==> a.outcome.Interrupted? && a.outcome.stop.Cancelled?)
    ensures r.status.Aborted? ==> r.status.message == DefaultCancelMessage
    ensures UniqueIds(cs) ==> UniqueIds(r.clientes)
  {
    match FindById(cs, id)
    case None => Session(NotFound, cs, answers, [])
    case Some(i) =>
      var r := UpdateAt(cs, i, answers);
      var a := AcquireFields(AtualizacaoPrompts, Some(FieldsOf(cs[i])), answers);
      if r.status.Concluded? then
        ReplaceKeepsUniqueIds(cs, i, Cliente(cs[i].id, a.outcome.fields.nome, a.outcome.fields.cpf,
                                             a.outcome.fields.telefone, a.outcome.fields.endereco));
        r
      else r
  }

  /** A completed update rewrites only the first record with the id, keeps
      the id, and stores valid fields read in prompt order. */
  lemma AtualizarClienteChangesOnlyTarget(cs: seq<Cliente>, id: int, answers: seq<Answer>)
    ensures var r := AtualizarCliente(cs, id, answers);
      r.status.Concluded? ==>
        var i := FindById(cs, id).value;
        && r.clientes[i].id == id
        && ValidFields(FieldsOf(r.clientes[i]))
        && ReadInOrder(answers, r.rest, FieldsOf(r.clientes[i]))
        && (forall j :: 0 <= j < |cs| && j != i ==> r.clientes[j] == cs[j])
  {
    var r := AtualizarCliente(cs, id, answers);
    if r.status.Concluded? {
      var i := FindById(cs, id).value;
      assert r == UpdateAt(cs, i, answers);
    }
  }

  /** The update of the record at position `i` once it has been found. */
  function UpdateAt(cs: seq<Cliente>, i: nat, answers: seq<Answer>): (r: Session)
    requires i < |cs|
    ensures IsSuffixOf(r.rest, answers)
    ensures r.status.Concluded? || r.status.Aborted? || r.status.OutOfInput?
    ensures !r.status.Concluded? ==> r.clientes == cs
    ensures var a := AcquireFields(AtualizacaoPrompts, Some(FieldsOf(cs[i])), answers);
      && (r.status.Concluded? <==> a.outcome.AllAccepted?)
      && (r.status.Aborted? <==> a.outcome.Interrupted? && a.outcome.stop.Cancelled?)
      && (r.status.Concluded? ==>
            && r.clientes == cs[i := Cliente(cs[i].id, a.outcome.fields.nome, a.outcome.fields.cpf,
                                             a.outcome.fields.telefone, a.outcome.fields.endereco)]
            && ValidFields(a.outcome.fields)
            && ReadInOrder(answers, r.rest, a.outcome.fields))
    ensures r.status.Aborted? ==> r.status.message == DefaultCancelMessage
  {
    var atual := cs[i];
    var acquired := AcquireFields(AtualizacaoPrompts, Some(FieldsOf(atual)), answers);
    AcquireFieldsReadsInOrder(AtualizacaoPrompts, Some(FieldsOf(atual)), answers);
    match acquired.outcome
    case AllAccepted(f) =>
      var atualizado := Cliente(atual.id, f.nome, f.cpf, f.telefone, f.endereco);
      Session(Concluded, cs[i := atualizado], acquired.rest, acquired.events)
    case Interrupted(Cancelled(message)) =>
      Session(Aborted(message), cs, acquired.rest, acquired.events + [Alerted(message)])
    case Interrupted(_) =>
      Session(OutOfInput, cs, acquired.rest, acquired.events)
  }

  /** Replacing a record by one with the same id keeps ids unique. */
  lemma ReplaceKeepsUniqueIds(cs: seq<Cliente>, i: nat, c: Cliente)
    requires i < |cs| && c.id == cs[i].id
    ensures UniqueIds(cs) ==> UniqueIds(cs[i := c])
  {
    var r := cs[i := c];
    assert forall j :: 0 <= j < |cs| ==> r[j].id == cs[j].id;
  }

  /** Four attempt sequences whose last replies the fields accept add exactly
      one record holding those replies, under the next id. */
  lemma CadastrarClienteConcludes(cs: seq<Cliente>, s1: seq<Answer>, s2: seq<Answer>, s3: seq<Answer>,
                                  s4: seq<Answer>, rest: seq<Answer>, answers: seq<Answer>)
    requires answers == s1 + (s2 + (s3 + (s4 + rest)))
    requires AcceptedAtEnd(s1, true, None) && AcceptedAtEnd(s2, true, Some(ValidaCPF))
    requires AcceptedAtEnd(s3, true, Some(ValidaTelefone)) && AcceptedAtEnd(s4, true, None)
    ensures var r := CadastrarCliente(cs, answers);
      && r.status == Concluded
      && r.clientes == cs + [Cliente(NextId(cs), FinalReply(s1), FinalReply(s2), FinalReply(s3), FinalReply(s4))]
      && r.rest == rest
  {
    AcquireFieldsConcludes(CadastroPrompts, None, s1, s2, s3, s4, rest, answers);
  }

  /** For an id that is present, four attempt sequences whose last replies the
      fields accept replace the first record with that id by one holding
      those replies, under the same id. */
  lemma AtualizarClienteConcludes(cs: seq<Cliente>, id: int, s1: seq<Answer>, s2: seq<Answer>, s3: seq<Answer>,
                                  s4: seq<Answer>, rest: seq<Answer>, answers: seq<Answer>)
    requires exists j :: 0 <= j < |cs| && cs[j].id == id
    requires answers == s1 + (s2 + (s3 + (s4 + rest)))
    requires AcceptedAtEnd(s1, true, None) && AcceptedAtEnd(s2, true, Some(ValidaCPF))
    requires AcceptedAtEnd(s3, true, Some(ValidaTelefone)) && AcceptedAtEnd(s4, true, None)
    ensures var r := AtualizarCliente(cs, id, answers);
      && r.status == Concluded
      && FindById(cs, id).Some?
      && r.clientes == cs[FindById(cs, id).value := Cliente(id, FinalReply(s1), FinalReply(s2), FinalReply(s3), FinalReply(s4))]
      && r.rest == rest
  {
    var i := FindById(cs, id).value;
    AcquireFieldsConcludes(AtualizacaoPrompts, Some(FieldsOf(cs[i])), s1, s2, s3, s4, rest, answers);
  }

  /** "Cancelar" at any field prompt aborts `cadastrarCliente`: the `catch`
      alerts 'Operação cancelada', the list is unchanged and nothing after
      the `null` is read. */
  lemma CadastrarClienteAborts(cs: seq<Cliente>, k: nat, accepted: seq<seq<Answer>>, t: seq<Answer>,
                               rest: seq<Answer>, answers: seq<Answer>)
    requires CancelledAtField(k, accepted, t, rest, answers)
    ensures var r := CadastrarCliente(cs, answers);
      && r.status == Aborted(DefaultCancelMessage)
      && r.clientes == cs
      && r.rest == rest
      && |r.events| > 0 && r.events[|r.events| - 1] == Alerted(DefaultCancelMessage)
  {
    AcquireFieldsCancels(CadastroPrompts, None, k, accepted, t, rest, answers);
  }

  /** For an id that is present, "Cancelar" at any field prompt aborts
      `atualizarCliente` the same way: the record keeps its values. */
  lemma AtualizarClienteAborts(cs: seq<Cliente>, id: int, k: nat, accepted: seq<seq<Answer>>, t: seq<Answer>,
                               rest: seq<Answer>, answers: seq<Answer>)
    requires exists j :: 0 <= j < |cs| && cs[j].id == id
    requires CancelledAtField(k, accepted, t, rest, answers)
    ensures var r := AtualizarCliente(cs, id, answers);
      && r.status == Aborted(DefaultCancelMessage)
      && r.clientes == cs
      && r.rest == rest
      && |r.events| > 0 && r.events[|r.events| - 1] == Alerted(DefaultCancelMessage)
  {
    var i := FindById(cs, id).value;
    AcquireFieldsCancels(AtualizacaoPrompts, Some(FieldsOf(cs[i])), k, accepted, t, rest, answers);
  }

  /** The result of `deletarCliente`, which asks for nothing once the id is known. */
  datatype Deletion = Deletion(status: Status, clientes: seq<Cliente>)

  /** `deletarCliente` for an id already read: the first record with that id
      is removed, the others keep their order. */
  function DeletarCliente(cs: seq<Cliente>, id: int): (r: Deletion)
    ensures r.status.Concluded? || r.status.NotFound?
    ensures r.status.NotFound? <==> forall j :: 0 <= j < |cs| ==> cs[j].id != id
    ensures r.status.NotFound? ==> r.clientes == cs
    ensures r.status.Concluded? ==>
      && |r.clientes| == |cs| - 1
      && multiset(r.clientes) + multiset{cs[FindById(cs, id).value]} == multiset(cs)
      && var i := FindById(cs, id).value;
         && (forall j :: 0 <= j < i ==> r.clientes[j] == cs[j])
         && (forall j :: i <= j < |r.clientes| ==> r.clientes[j] == cs[j + 1])
    ensures UniqueIds(cs) ==> UniqueIds(r.clientes)
  {
    match FindById(cs, id)
    case None => Deletion(NotFound, cs)
    case Some(i) =>
      assert cs == cs[..i] + [cs[i]] + cs[i + 1..];
      RemoveAtKeepsUniqueIds(cs, i);
      Deletion(Concluded, RemoveAt(cs, i))
  }

  /** With unique ids, deleting an id leaves no record with that id: the
      result is the list with every record of that id filtered out. */
  lemma DeletarClienteRemovesId(cs: seq<Cliente>, id: int)
    requires UniqueIds(cs)
    ensures DeletarCliente(cs, id).clientes == RemoveMatching(cs, HasId(id))
    ensures forall c :: c in DeletarCliente(cs, id).clientes ==> c.id != id
  {
    RemoveFirstIsRemoveMatching(cs, HasId(id));
  }

  /** A record appended with an id above every existing id is found at the end. */
  lemma {:induction false} AppendedRecordFound(cs: seq<Cliente>, c: Cliente)
    requires forall j :: 0 <= j < |cs| ==> cs[j].id < c.id
    ensures FindById(cs + [c], c.id) == Some(|cs|)
  {
    var all := cs + [c];
    assert all[|cs|] == c;
    assert forall j :: 0 <= j < |cs| ==> all[j].id != c.id by {
      forall j | 0 <= j < |cs|
        ensures all[j].id != c.id
      {
        assert all[j] == cs[j];
      }
    }
  }

  /** A record added by `cadastrarCliente` is found again under its new id. */
  lemma CadastrarThenFind(cs: seq<Cliente>, answers: seq<Answer>)
    ensures var r := CadastrarCliente(cs, answers);
      r.status.Concluded? ==> FindById(r.clientes, r.clientes[|cs|].id) == Some(|cs|)
  {
    var r := CadastrarCliente(cs, answers);
    if r.status.Concluded? {
      var novo := r.clientes[|cs|];
      assert r.clientes == cs + [novo] by {
        assert r.clientes == r.clientes[..|cs|] + [novo];
      }
      AppendedRecordFound(cs, novo);
    }
  }

  /** After `atualizarCliente` the id still leads to the same position, now
      holding the acquired values. */
  lemma AtualizarThenFind(cs: seq<Cliente>, id: int, answers: seq<Answer>)
    ensures var r := AtualizarCliente(cs, id, answers);
      r.status.Concluded? ==> FindById(r.clientes, id) == FindById(cs, id)
  {
    var r := AtualizarCliente(cs, id, answers);
    if r.status.Concluded? {
      var i := FindById(cs, id).value;
      var found := FindById(r.clientes, id);
      assert forall j :: 0 <= j < i ==> r.clientes[j].id != id;
      assert found.Some? && found.value <= i;
    }
  }
}
