# Client-record manager: validators, prompt protocol and client list

This Dafny project models the logic of a small browser-driven client-record
manager. The user picks a menu option and types field values into blocking
`prompt` dialogs. The program validates the values and changes an in-memory
list of `Cliente` records. Two versions of the program are modelled:

- **index.ts**
  - `validaTelefone`: accepts exactly nine ASCII digits.
  - `validaCPF`: the Brazilian taxpayer-number check, a format gate followed by two modulo-11 check digits.
  - `trataPrompt`: the "ask, validate, retry or cancel" protocol around every field.
  - `capturaPromptMenu`: the menu selection loop.
  - `cadastrarCliente`, `atualizarCliente` and `deletarCliente`: the operations on the list, plus the `find` that `detalharCliente` shares with them.
- **index.js** (the older variant)
  - `trataPromptNullOuVazio`: a loop that cannot be cancelled.
  - Its `capturaPromptMenu`, `cadastrarCliente` and `deletarCliente`; the last deletes by CPF.

Modelling choices:

- The browser's `prompt` becomes a finite script of answers (`seq<Option<string>>`). `None` is the `null` returned by "Cancelar". Every operation that reads replies returns the unread rest of the script.
- Those operations also return the trace of dialogs they showed: `Prompted(text, default)` or `Alerted(message)`.
- `Clients.DeletarCliente` reads no replies once the id is known, so it returns only the status and the new list.
- Running out of script is the extra outcome `Exhausted` (`OutOfInput` for the list operations). The original has no such outcome because it blocks forever.
- The thrown cancellation `Error` becomes the `Cancelled(message)` outcome.
- The client list is an immutable `seq<Cliente>` that each operation returns, not a mutated global array.

Modules:

- `Common` (common.dfy): `Option`, answers, events and script suffixes.
- `Validation` (validation.dfy): JavaScript `trim`, both validators, and the conventional statement of the CPF rule with the proof that the code computes it.
- `Prompt` (prompt.dfy): `trataPrompt`, an index-based characterisation of it, and the index.ts menu.
- `Clients` (clients.dfy): records, lookup, field acquisition and the index.ts operations.
- `Legacy` (legacy.dfy): the index.js functions.

Three behaviours of `validaCPF` in index.ts that the model keeps as written:

- There is no special case for repeated digits. `"00000000000"` and `"11111111111"` pass both check-digit tests, because their weighted sums are multiples of 11 or leave remainder 10. `ValidaCPFAllZeros` and `ValidaCPFAllOnes` prove that both are accepted.
- The second check-digit pass (index.ts:53) prepends the 10th digit of the *input*, not the digit the first pass computed. The first pass has already required the two to be equal, and `SecondPassIsConventionalSum` proves that either choice gives the same sum.
- Only the length test uses `trim()`. The digit regular expression runs on the raw string, so any surrounding whitespace is rejected, as `FormatGateIff` states.

## Model

| member | source | states |
|---|---|---|
| `Validation.FormatGateIff` | index.ts:39-41 | the guard "trimmed length is n and `/^[0-9]+$/` matches the raw string" holds exactly when the string has n characters, all ASCII digits; whitespace anywhere is rejected |
| `Validation.ValidaTelefone` | index.ts:29-35 | success iff exactly 9 ASCII digits; the accepted value is the input itself; every rejection carries "Telefone com formato ou caracteres inválidos" |
| `Validation.ValidaTelefoneIdempotent` | index.ts:29-35 | re-validating an accepted phone number gives the same success |
| `Validation.ValidaTelefoneVectors` | index.ts:29-35 | "123456789" is accepted unchanged; 8 digits, a leading space or a letter are rejected with the phone message |
| `Validation.ValidaCPF` | index.ts:37-64 | success iff the string is 11 ASCII digits whose 10th and 11th digits are the CPF check digits of the conventional rule; the value returned is the input; format failures get "CPF com tamanho incorreto ou caracteres inválidos", check-digit failures "CPF com DV inválido" |
| `Validation.CheckDigitIsRuleDigit` | index.ts:48-49 | "11 minus (sum mod 11), with 10 or 11 replaced by 0" equals (10·sum mod 11) mod 10 for every sum |
| `Validation.ReduceReversed` | index.ts:48 | the `reduce` over the reversed digits with weights 2, 3, … equals the left-to-right sum with weights n+1 down to 2 |
| `Validation.SecondPassIsConventionalSum` | index.ts:49-54 | the second pass over [input 10th digit] ++ reversed base equals the conventional 11..2 weighted sum of the first ten digits, and under the line-49 guard equals the sum with the computed digit prepended |
| `Validation.PassesAgreeWithRule` | index.ts:48-60 | both as-written passes succeed iff the conventional CPF check digits hold |
| `Validation.ValidaCPFIdempotent` | index.ts:58-63 | re-validating an accepted CPF gives the same success |
| `Validation.ValidaCPFKnownVector` | index.ts:37-64 | "11144477735" is accepted unchanged |
| `Validation.ValidaCPFTamperedVector` | index.ts:54-60 | "11144477736" fails the second check digit |
| `Validation.ValidaCPFAllZeros` | index.ts:48-63 | "00000000000" is accepted: repeated digits are not special-cased |
| `Validation.ValidaCPFAllOnes` | index.ts:48-63 | "11111111111" is accepted |
| `Validation.ValidaCPFMalformed` | index.ts:39-41 | 10 digits, 10 digits plus a space, and the empty string get the format message |
| `Prompt.TrataPrompt` | index.ts:66-94 | the unread script is a suffix of the script; a cancellation needs `permiteCancelar` and a `null` reply; its message is `mensagemCancelamento ?? 'Operação cancelada'` on the first reply and 'Operação cancelada' after any retry; an accepted value comes from a non-empty reply, as typed without a validator or as the validator's `valor`; running out of script leaves nothing unread, anything else reads at least one reply |
| `Prompt.TrataPromptRetriedBefore` | index.ts:72-90 | every reply before the deciding one was retried (a `null` that may not cancel, an empty reply, or text the validator rejects) and the deciding one was not; running out of script means every reply was retried |
| `Prompt.TrataPromptSamePrompt` | index.ts:69-70 | every dialog the protocol opens, first or retried, shows the same text with the cancel hint iff cancelling is allowed, and the same default |
| `Prompt.TrataPromptSettlesAtFirstDecisive` | index.ts:72-90 | the outcome is decided by the first reply that is not retried (null without cancelling, empty, or rejected); the unread script is what follows it; two dialogs per retried reply |
| `Prompt.TrataPromptExhausts` | index.ts:76-86 | when every reply is retried the script runs out, with two dialogs per reply |
| `Prompt.TrataPromptExhaustedIff` | index.ts:72-90 | running out of script happens exactly when every reply is retried |
| `Prompt.TrataPromptNeverCancelsWhenDisallowed` | index.ts:72-79 | with `permiteCancelar` false no script gives a cancellation, and a value returned without a validator is non-empty |
| `Prompt.TrataPromptTrace` | index.ts:69-86 | for a reply decided at position k after k retried replies, the trace has 2k+1 dialogs: the same prompt at every even position, and after the j-th reply the alert for it, "Valor Inválido! Tente novamente" for `null` or empty and "Valor Inválido! " + the validator's message for rejected text |
| `Prompt.TrataPromptCancelsAtEnd` | index.ts:72-90 | with cancelling allowed, retried replies closed by a `null` reply cancel, whatever follows, and nothing after the `null` is read; the message is the caller's (or 'Operação cancelada') when the `null` is the first reply and 'Operação cancelada' after any retry |
| `Prompt.TrataPromptAcceptsAtEnd` | index.ts:72-90 | retried replies closed by text the protocol does not retry are consumed exactly, whatever follows, and the value is that text as the validator admits it |
| `Prompt.TrataPromptTwoRejections` | index.ts:81-90 | for any validator, two rejected replies followed by an accepted one give the validator's value, with the prompt shown three times and one "Valor Inválido! " alert per rejection, carrying its message |
| `Prompt.TrataPromptCpfScenario` | index.ts:161 | acquiring a CPF from "abc", "11144477736", "11144477735" returns the third, after two alerts with the format and check-digit messages |
| `Prompt.CapturaPromptMenu` | index.ts:130-153 | only a menu key equal to the last reply is returned; a cancellation follows a `null` reply and says "Aplicação encerrada!", except right after an empty reply, where it says "Operação cancelada"; running out of script leaves nothing unread |
| `Prompt.CapturaPromptMenuRetriedBefore` | index.ts:139-144 | every reply before the deciding one was empty or text that is not a key, and the deciding one is `null` or a key; the script runs out only when every reply is empty or not a key |
| `Prompt.CapturaPromptMenuSettles` | index.ts:139-147 | the first reply that is `null` or a key decides: a key is returned, a `null` cancels with "Operação cancelada" right after an empty reply and "Aplicação encerrada!" otherwise; the script after it is unread |
| `Prompt.TrataPromptAcceptsAtEndTrace` | index.ts:69-86 | n attempts ending in text the protocol accepts show 2n-1 dialogs: the same prompt, with its cancel hint and default, opens every attempt, and no other prompt appears |
| `Prompt.CapturaPromptMenuAlerts` | index.ts:139-144 | every reply read that is non-empty text but not a key is answered by the alert "Opção X inválida. Na próxima tela selecione uma opção válida." naming that text |
| `Prompt.CapturaPromptMenuCancelMessages` | index.ts:139-144 | cancelling at once or after an invalid option gives "Aplicação encerrada!"; cancelling after an empty reply gives "Operação cancelada" |
| `Clients.FindById` | index.ts:196 | returns the first index holding the id, or nothing exactly when no record has it |
| `Clients.MaxId` | index.ts:165 | `Math.max` of the ids of a non-empty list: an upper bound that is one of the ids |
| `Clients.NextId` | index.ts:165-166 | the new id exceeds every id in the list, is 1 for an empty list and otherwise is the largest id plus one |
| `Clients.AcquireFields` | index.ts:160-163 | all four fields accepted means non-empty name and address, a CPF `validaCPF` accepts and a phone `validaTelefone` accepts, with at least one reply read; a stop is a cancellation with 'Operação cancelada' (no message is passed) or an exhausted script that was read to the end |
| `Clients.AcquireFieldsReadsInOrder` | index.ts:160-163 | the four accepted values are replies of the script at increasing positions, the address being the last reply read |
| `Clients.AcquireFieldsCancelledOnNull` | index.ts:72-73 | a cancelled acquisition read at least one reply and the last one was `null` |
| `Clients.AcquireFieldsConcludes` | index.ts:160-163 | four attempt sequences each closed by text its field accepts give all four fields, equal to those final texts, and leave the rest of the script unread |
| `Clients.AcquireFieldsCancels` | index.ts:160-163 | when the first k fields are each closed by accepted text and field k is then closed by a `null` reply, the acquisition is interrupted by a cancellation with 'Operação cancelada' and nothing after the `null` is read, for each of the four fields |
| `Clients.AcquireFieldsPromptsCarryDefaults` | index.ts:216-219 | every dialog the acquisition opens is one field's prompt text with the cancel hint, shown with that same field's default (none when adding, the record's current value when updating) |
| `Clients.AcquireFieldsTrace` | index.ts:160-163 | on four attempt sequences each closed by accepted text, the trace is the four fields' dialogs in prompt order; field k's part has 2·(its attempts)−1 dialogs, each of its attempts opened by field k's own prompt text with the cancel hint and field k's own default, and no other prompt in it |
| `Clients.ChainedReads` | index.ts:160-163 | four reads each starting where the previous one stopped put their last replies at increasing positions of the script |
| `Clients.CadastrarCliente` | index.ts:157-178 | concluded exactly when all four fields are accepted, and then exactly one record is appended with the next id, holding exactly the accepted values, which are replies read in prompt order; old records untouched; aborted exactly when the acquisition was interrupted by a cancellation, with 'Operação cancelada'; otherwise the list is unchanged; unique ids stay unique |
| `Clients.CadastrarClienteAborts` | index.ts:157-174 | a `null` reply at any of the four field prompts, after the earlier fields were accepted, aborts with 'Operação cancelada', alerted last by the `catch`; the list is unchanged and nothing after the `null` is read |
| `Clients.AppendKeepsUniqueIds` | index.ts:165-168 | pushing a record whose id exceeds every existing id leaves the old records in place, puts the new one last, and keeps ids unique |
| `Clients.AppendedRecordFound` | index.ts:165-169 | a record pushed with an id above every existing id is what `find` by that id returns, at the last position |
| `Clients.CadastrarThenFind` | index.ts:165-169 | the appended record is found again under its new id, at the end of the list |
| `Clients.CadastrarClienteConcludes` | index.ts:157-169 | four attempt sequences each closed by accepted text conclude, appending exactly one record with the next id and those four texts |
| `Clients.AtualizarCliente` | index.ts:207-236 | not found exactly when no record has the id; for a present id, concluded exactly when the acquisition with the record's current values as defaults (see `Clients.AcquireFieldsPromptsCarryDefaults` and `Clients.AcquireFieldsTrace`) accepts all four fields, and then the first record with the id holds exactly those values under the same id; aborted exactly when that acquisition was interrupted by a cancellation; otherwise the list is unchanged; unique ids stay unique |
| `Clients.AtualizarClienteChangesOnlyTarget` | index.ts:212-224 | a completed update keeps the length, changes only the first record with the id, keeps its id, and stores valid fields that are replies read in prompt order |
| `Clients.UpdateAt` | index.ts:216-224 | concluded exactly when the acquisition with the record's current values as defaults accepts all four fields, and then the list is the old one with position i replaced by the same id and exactly the accepted values; aborted exactly when that acquisition was interrupted by a cancellation; otherwise unchanged |
| `Clients.ReplaceKeepsUniqueIds` | index.ts:221-224 | overwriting a record's fields in place, keeping its id, keeps ids unique |
| `Clients.AtualizarClienteConcludes` | index.ts:207-224 | for a present id, four attempt sequences each closed by accepted text replace the first record with that id by one holding those texts under the same id |
| `Clients.AtualizarClienteAborts` | index.ts:207-233 | for a present id, a `null` reply at any of the four field prompts, after the earlier fields were accepted, aborts with 'Operação cancelada', alerted last by the `catch`; the list is unchanged and nothing after the `null` is read |
| `Clients.AtualizarThenFind` | index.ts:212-224 | after an update the id is found at the same position as before |
| `Clients.DeletarCliente` | index.ts:238-252 | not found exactly when no record has the id, leaving the list unchanged; otherwise the first record with the id is removed, the rest keep their order and the multiset loses exactly that record |
| `Clients.RemoveMatchingNoMatch` | index.ts:242-244 | filtering out the records of an id that no record has leaves the list as it was, like `find` returning `undefined` before any `splice` |
| `Clients.RemoveFirstIsRemoveMatching` | index.ts:242-244 | when at most one record matches, removing the first match equals filtering out every match |
| `Clients.DeletarClienteRemovesId` | index.ts:242-245 | with unique ids, deleting an id leaves no record with that id |
| `Clients.RemoveAtKeepsUniqueIds` | index.ts:244 | `splice` of one element keeps ids unique |
| `Legacy.AskUntilFilled` | index.js:7-11 | the loop returns the first non-blank reply and reads nothing after it; every earlier reply was `null` or empty; running out of script means every reply was blank and the script was read to the end |
| `Legacy.AskUntilFilledTrace` | index.js:7-9 | one prompt per reply read: the plain text first, the text prefixed "Valor inválido!\n" on every repeat |
| `Legacy.TrataPromptNullOuVazio` | index.js:6-12 | never cancels; returns a non-empty string equal to the deciding reply, all earlier replies blank; runs out of script exactly when every reply is blank |
| `Legacy.CapturaPromptMenuLegado` | index.js:28-48 | only a non-empty option equal to the last reply is returned; nothing else ends the loop but running out of script, which reads it to the end |
| `Legacy.CapturaPromptMenuLegadoRetriedBefore` | index.js:37-43 | every reply before the chosen option was blank or not an option; the script runs out only when every reply is |
| `Legacy.CapturaPromptMenuLegadoSettles` | index.js:37-43 | the first reply that is an option is returned and nothing after it is read |
| `Legacy.CapturaPromptMenuLegadoAlerts` | index.js:37-41 | every reply read that is non-empty text but not an option is answered by the alert "Opção X inválida. Na próxima tela selecione uma opção válida." naming that text |
| `Legacy.AcquireFieldsLegado` | index.js:52-55 | the unread script is a suffix of the script; either all four values are non-empty or the script ran out and was read to the end; nothing cancels |
| `Legacy.AcquireFieldsLegadoReadsInOrder` | index.js:52-55 | the four values are replies of the script at increasing positions, the address being the last reply read |
| `Legacy.TrataPromptNullOuVazioFilledAtEnd` | index.js:6-12 | blank replies closed by a non-blank one are consumed exactly, whatever follows, and that text is returned |
| `Legacy.AcquireFieldsLegadoConcludes` | index.js:52-55 | four sequences of blank replies each closed by a non-blank one give exactly those four texts and leave the rest unread |
| `Legacy.TrataPromptNullOuVazioFilledAtEndTrace` | index.js:7-9 | n replies, blank ones closed by a non-blank one, show n prompts: the plain text first, the text prefixed "Valor inválido!\n" after |
| `Legacy.AcquireFieldsLegadoTrace` | index.js:52-55 | on four such sequences the trace is the four fields' prompts in order; field k's part has one prompt per reply of its sequence, the first with field k's plain text and the rest prefixed "Valor inválido!\n" |
| `Legacy.CadastrarClienteLegado` | index.js:50-61 | concluded exactly when all four non-blank replies were read, and then one record with the next id is appended holding exactly those four values, read in prompt order, the old records untouched; otherwise the script ran out and the list is unchanged; unique ids stay unique |
| `Legacy.CadastrarClienteLegadoConcludes` | index.js:50-59 | four sequences of blank replies each closed by a non-blank one append exactly one record with the next id holding those texts |
| `Legacy.CadastrarClienteLegadoThenFind` | index.js:56-59 | the appended record is found again under its new id, at the end of the list |
| `Legacy.DeletarClienteLegado` | index.js:74-88 | on success the list is the old one with the first record of some CPF removed; otherwise the list is unchanged; running out of script reads it to the end; unique ids stay unique |
| `Legacy.DeletarClienteLegadoOutcome` | index.js:76-86 | on success the removed record is the first whose CPF equals the last reply read; when the operation gives up, the last reply is not "1" and the CPF entered just before it matches no record |
| `Legacy.DeletarClienteLegadoFinds` | index.js:76-80 | blank replies closed by a CPF some record holds remove the first such record and read nothing more |
| `Legacy.DeletarClienteLegadoGivesUp` | index.js:82-86 | blank replies closed by a CPF no record holds, then any reply but "1", give not-found with the list unchanged |
| `Legacy.DeletarClienteLegadoRetries` | index.js:82-85 | blank replies closed by a CPF no record holds, then "1", show the retry prompt naming that CPF and start the deletion over on the replies after the "1": status, list and unread script are those of the new attempt |
| `Legacy.DeletarClienteLegadoRemovesCpf` | index.js:77-79 | with unique CPFs, a successful deletion equals filtering out every record with the CPF read last, so none is left |

## Left out

- `prompt`, `alert` and `console.log` are browser and console I/O. `prompt` is a finite script of answers. Alerts appear as `Alerted` events, and `console.log` is not modelled.
- Running out of script (`Exhausted`, `OutOfInput`) has no counterpart in the original, which waits for the user indefinitely.
- `montaMenu`, `listarClientes` and the message built by `detalharCliente` are presentation only. The menu text is a parameter of the menu functions, and the menu map is reduced to its list of keys.
- The id prompts of `detalharCliente`, `atualizarCliente` and `deletarCliente` go through `parseInt`, which can return NaN. `idNaoLocalizado` re-asks through `parseInt` as well. The model takes the id as an already-parsed integer and reports `NotFound` instead of re-asking.
- Clients.AtualizarCliente: the success alert "Cliente com ID … atualizado com sucesso!" is not in the event trace, because it formats a number.
- Clients.DeletarCliente: the success alert that formats the id is not modelled, and the operation reads no replies once the id is known.
- The `idRecebido` parameter of the ts operations is always the given id in the model.
- `main`'s self-recursion, the `matemAplicacaoAtiva` flag and `sair` form the process lifecycle, not logic. Dispatch through the menu map is not modelled.
- The `try`/`catch` rethrow plumbing becomes the `Cancelled` outcome and the `Aborted` status. The `catch` that alerts the message is the `Alerted(message)` event.
- `atualizarCliente` in index.js is an empty function, so the list is trivially unchanged. It has no model member.
- JavaScript strings are UTF-16 code-unit sequences, and Dafny strings are sequences of Unicode scalar values. Only ASCII digits pass either validator, so the lengths agree on every accepted string.
- The set of characters `trim` removes is the ECMAScript WhiteSpace and LineTerminator set, written out as a fixed list of code points. By `FormatGateIff`, the validators' results do not depend on that list.
