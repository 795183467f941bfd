/** Shared vocabulary of the client-record manager model: optional values,
    the scripted answers that stand in for the browser's `prompt`, and the
    trace of dialogs the program shows. */
module Common {

  /** The conventional Some/None datatype; `None` plays the part of JavaScript's
      `null` / `undefined`. */
  datatype Option<+T> = None | Some(value: T) {

    /** The `??` operator: the value if present, the default otherwise. */
    function GetOr(default: T): T {
      match this
      case Some(v) => v
      case None => default
    }
  }

  /** One reply of the user to a `prompt` dialog: `None` when "Cancelar" was
      clicked (the dialog returned `null`), otherwise the text typed. */
  type Answer = Option<string>

  /** A dialog the program showed: a `prompt` with its text and default value,
      or an `alert` with its message. */
  datatype Event =
    | Prompted(text: string, default: Option<string>)
    | Alerted(message: string)

  /** `rest` is what is left of the script `answers` after some replies were read. */
  predicate IsSuffixOf<T(==)>(rest: seq<T>, answers: seq<T>) {
    |rest| <= |answers| && rest == answers[|answers| - |rest|..]
  }

  lemma {:induction false} SuffixTransitive<T>(c: seq<T>, b: seq<T>, a: seq<T>)
    requires IsSuffixOf(c, b) && IsSuffixOf(b, a)
    ensures IsSuffixOf(c, a)
    ensures a[|a| - |c|..] == c
  {
    assert a[|a| - |c|..] == a[|a| - |b|..][|b| - |c|..];
  }

  /** A property of every element before the suffix `mid` extends to the
      first `n` elements of `mid`. */
  lemma {:induction false} PrefixPropertyExtends<T>(answers: seq<T>, mid: seq<T>, P: T -> bool, n: nat)
    requires IsSuffixOf(mid, answers) && n <= |mid|
    requires forall j :: 0 <= j < |answers| - |mid| ==> P(answers[j])
    requires forall j :: 0 <= j < n ==> P(mid[j])
    ensures forall j :: 0 <= j < |answers| - |mid| + n ==> P(answers[j])
  {
    var read := |answers| - |mid|;
    forall j | read <= j < read + n
      ensures P(answers[j])
    {
      assert answers[j] == mid[j - read];
    }
  }
}
