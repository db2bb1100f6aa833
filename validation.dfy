/**
 * The field-level rule chain of the volunteer-registration form
 * (`validateField` in js/script.js): a field id and its current value map to
 * an error message, the empty string meaning "valid".
 */
module Validation {
  import opened Text

  /** The twelve inputs of the form, in the order the submit handler visits them. */
  const Fields: seq<string> := [
    "nome", "email", "telefone", "cpf", "dataNascimento", "tipoLogradouro",
    "nomeLogradouro", "numeroResidencia", "cep", "cidade", "estado", "motivo"
  ]

  /** No field id occurs twice. */
  lemma FieldsDistinct()
    ensures forall j, k :: 0 <= j < k < |Fields| ==> Fields[j] != Fields[k]
  {
  }

  const Required: string := "Campo obrigatório."
  const EmailInvalid: string := "Email inválido."
  const CpfInvalid: string := "CPF inválido (11 dígitos)."
  const FutureDate: string := "Data futura inválida."
  const PhoneInvalid: string := "Telefone inválido (10-11 dígitos)."
  const CepInvalid: string := "CEP inválido (8 dígitos)."
  const NumberInvalid: string := "Número deve ser dígitos."

  /** Every string `Validate` can produce. */
  const Outcomes: set<string> :=
    {"", Required, EmailInvalid, CpfInvalid, FutureDate, PhoneInvalid, CepInvalid, NumberInvalid}

  /** The character class `[^\s@]+`, applied to a whole string. */
  predicate LocalPart(s: string) {
    s != [] && forall k :: 0 <= k < |s| ==> !IsSpace(s[k]) && s[k] != '@'
  }

  /** `/^[^\s@]+@[^\s@]+\.[^\s@]+$/`: some split into three `[^\s@]+` runs
      joined by an `@` at `i` and a `.` at `j`. */
  predicate EmailPattern(v: string) {
    exists i, j :: 0 < i && i + 1 < j && j + 1 < |v| && v[i] == '@' && v[j] == '.'
      && LocalPart(v[..i]) && LocalPart(v[i + 1..j]) && LocalPart(v[j + 1..])
  }

  /** `/^\d{lo,hi}$/`. */
  predicate DigitRun(s: string, lo: nat, hi: nat) {
    AllDigits(s) && lo <= |s| <= hi
  }

  /** The rule chain, first match wins. `isFuture` stands for the comparison
      `new Date(value) > new Date()`, which only the birth-date rule consults.
      The blank test `!value.trim()` is written `AllSpace(value)`, which the
      first `ensures` of `Text.Trim` makes equivalent to `Trim(value) == []`
      (see `BlankIsEmptyTrim`). */
  function Validate(id: string, value: string, isFuture: bool): (r: string)
    ensures r in Outcomes
    ensures AllSpace(value) ==> r == Required
  {
    if AllSpace(value) then Required
    else if id == "email" && !EmailPattern(value) then EmailInvalid
    else if id == "cpf" then
      (if !DigitRun(Digits(value), 11, 11) then CpfInvalid else "")
    else if id == "dataNascimento" && isFuture then FutureDate
    else if id == "telefone" then
      (if !DigitRun(Digits(value), 10, 11) then PhoneInvalid else "")
    else if id == "cep" then
      (if !DigitRun(Digits(value), 8, 8) then CepInvalid else "")
    else if id == "numeroResidencia" && !(Trim(value) != [] && AllDigits(Trim(value))) then NumberInvalid
    else ""
  }

  /** The blank test as the script writes it: `Campo obrigatório.` is given
      exactly when `trim` leaves nothing. */
  lemma BlankIsEmptyTrim(id: string, value: string, isFuture: bool)
    ensures Validate(id, value, isFuture) == Required <==> Trim(value) == []
  {
    if !AllSpace(value) {
      assert Validate(id, value, isFuture) in Outcomes - {Required};
    }
  }

  // ---------------------------------------------------------------------
  // An independent description of which values are accepted.

  predicate NoSpace(v: string) {
    forall k :: 0 <= k < |v| ==> !IsSpace(v[k])
  }

  /** `v[a]` is the `@` and the part after it has a `.` that is neither its
      first nor its last character. */
  ghost predicate AtThenDot(v: string, a: nat) {
    a < |v| && v[a] == '@' && exists k :: a + 1 < k < |v| - 1 && v[k] == '.'
  }

  /** No whitespace, exactly one `@` with something before it, and after it a
      `.` that is neither first nor last. */
  ghost predicate EmailShape(v: string) {
    NoSpace(v) && Count(v, '@') == 1 && exists a :: 0 < a && AtThenDot(v, a)
  }

  /** What each field accepts: not blank, and the field's own rule. */
  ghost predicate Acceptable(id: string, v: string, isFuture: bool) {
    && !AllSpace(v)
    && (id == "email" ==> EmailShape(v))
    && (id == "cpf" ==> |Digits(v)| == 11)
    && (id == "dataNascimento" ==> !isFuture)
    && (id == "telefone" ==> |Digits(v)| == 10 || |Digits(v)| == 11)
    && (id == "cep" ==> |Digits(v)| == 8)
    && (id == "numeroResidencia" ==> AllDigits(Trim(v)))
  }

  /** Outside the `@` at `i`, an address the regular expression accepts has
      neither whitespace nor another `@`. */
  lemma PatternPartsClean(v: string, i: nat, j: nat)
    requires 0 < i && i + 1 < j && j + 1 < |v| && v[j] == '.'
    requires LocalPart(v[..i]) && LocalPart(v[i + 1..j]) && LocalPart(v[j + 1..])
    ensures forall k :: 0 <= k < |v| && k != i ==> !IsSpace(v[k]) && v[k] != '@'
  {
    forall k | 0 <= k < |v| && k != i ensures !IsSpace(v[k]) && v[k] != '@' {
      if k < i { assert v[k] == v[..i][k]; }
      else if k < j { assert v[k] == v[i + 1..j][k - i - 1]; }
      else if j < k { assert v[k] == v[j + 1..][k - j - 1]; }
    }
  }

  /** A string whose only `@` is at `i` counts one `@`. */
  lemma SingleAt(v: string, i: nat)
    requires i < |v| && v[i] == '@'
    requires forall k :: 0 <= k < |v| && k != i ==> v[k] != '@'
    ensures Count(v, '@') == 1
  {
    CountAround(v, i, '@');
    assert '@' !in v[..i];
    var after := v[i + 1..];
    forall m | 0 <= m < |after| ensures after[m] != '@' {
      assert after[m] == v[i + 1 + m];
    }
  }

  /** Every string the email regular expression accepts has `EmailShape`. */
  lemma EmailPatternSound(v: string)
    requires EmailPattern(v)
    ensures EmailShape(v)
  {
    var i, j :| 0 < i && i + 1 < j && j + 1 < |v| && v[i] == '@' && v[j] == '.'
      && LocalPart(v[..i]) && LocalPart(v[i + 1..j]) && LocalPart(v[j + 1..]);
    PatternPartsClean(v, i, j);
    SingleAt(v, i);
    assert AtThenDot(v, i);
  }

  /** Every string of `EmailShape` is accepted by the email regular expression. */
  lemma EmailPatternComplete(v: string)
    requires EmailShape(v)
    ensures EmailPattern(v)
  {
    var a :| 0 < a && AtThenDot(v, a);
    var k :| a + 1 < k < |v| - 1 && v[k] == '.';
    CountAround(v, a, '@');
    assert '@' !in v[..a] && '@' !in v[a + 1..];
    forall m | 0 <= m < |v| && m != a ensures v[m] != '@' {
      if m < a { assert v[..a][m] == v[m]; } else { assert v[a + 1..][m - a - 1] == v[m]; }
    }
    assert LocalPart(v[..a]);
    assert LocalPart(v[a + 1..k]);
    assert LocalPart(v[k + 1..]);
  }

  /** The email regular expression accepts exactly the strings of `EmailShape`. */
  lemma EmailPatternIff(v: string)
    ensures EmailPattern(v) <==> EmailShape(v)
  {
    if EmailPattern(v) { EmailPatternSound(v); }
    if EmailShape(v) { EmailPatternComplete(v); }
  }

  /** The outcome of every rule, stated through the independent predicates:
      blank values fail first, then the one rule of the field, if it has one. */
  lemma ValidateOutcome(id: string, v: string, isFuture: bool)
    ensures AllSpace(v) ==> Validate(id, v, isFuture) == Required
    ensures !AllSpace(v) && id == "email" ==>
      Validate(id, v, isFuture) == if EmailShape(v) then "" else EmailInvalid
    ensures !AllSpace(v) && id == "cpf" ==>
      Validate(id, v, isFuture) == if |Digits(v)| == 11 then "" else CpfInvalid
    ensures !AllSpace(v) && id == "dataNascimento" ==>
      Validate(id, v, isFuture) == if isFuture then FutureDate else ""
    ensures !AllSpace(v) && id == "telefone" ==>
      Validate(id, v, isFuture) == if |Digits(v)| == 10 || |Digits(v)| == 11 then "" else PhoneInvalid
    ensures !AllSpace(v) && id == "cep" ==>
      Validate(id, v, isFuture) == if |Digits(v)| == 8 then "" else CepInvalid
    ensures !AllSpace(v) && id == "numeroResidencia" ==>
      Validate(id, v, isFuture) == if AllDigits(Trim(v)) then "" else NumberInvalid
    ensures !AllSpace(v) && id !in {"email", "cpf", "dataNascimento", "telefone", "cep", "numeroResidencia"} ==>
      Validate(id, v, isFuture) == ""
  {
    if AllSpace(v) {
    } else if id == "email" {
      EmailPatternIff(v);
    } else if id == "cpf" {
    } else if id == "dataNascimento" {
    } else if id == "telefone" {
    } else if id == "cep" {
    } else if id == "numeroResidencia" {
    }
  }

  /** A value passes its field's rule chain exactly when it is `Acceptable`. */
  lemma ValidateAccepts(id: string, v: string, isFuture: bool)
    ensures Validate(id, v, isFuture) == "" <==> Acceptable(id, v, isFuture)
  {
    ValidateOutcome(id, v, isFuture);
  }

  /** The free-text fields reject only blank values. */
  lemma FreeTextFields(id: string, v: string, isFuture: bool)
    requires id in {"nome", "tipoLogradouro", "nomeLogradouro", "cidade", "estado", "motivo"}
    ensures Validate(id, v, isFuture) == if AllSpace(v) then Required else ""
  {
    ValidateOutcome(id, v, isFuture);
  }

  /** Only the email rule reads the untrimmed value: a surrounding space makes
      an otherwise well-formed address invalid. */
  lemma EmailSurroundingSpace(v: string, isFuture: bool)
    requires EmailShape(v)
    ensures Validate("email", " " + v, isFuture) == EmailInvalid
    ensures Validate("email", v + " ", isFuture) == EmailInvalid
  {
    assert (" " + v)[0] == ' ';
    assert (v + " ")[|v|] == ' ';
    assert !AllSpace(" " + v) by {
      var a :| 0 < a && AtThenDot(v, a);
      assert (" " + v)[a + 1] == '@';
    }
    assert !AllSpace(v + " ") by {
      var a :| 0 < a && AtThenDot(v, a);
      assert (v + " ")[a] == '@';
    }
    ValidateOutcome("email", " " + v, isFuture);
    ValidateOutcome("email", v + " ", isFuture);
  }
}
