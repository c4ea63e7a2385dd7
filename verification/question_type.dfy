/** The record-type table of section 3.2.2 of RFC 1035, with its 16-bit
    codes (src/dns/question_type.rs). */
module QuestionTypes {
  import opened Wrappers
  import opened Bytes

  datatype QuestionType =
    | A | NS | MD | MF | CNAME | SOA | MB | MG | MR | NULL | WKS | PTR | HINFO | MINFO | MX | TXT

  /** The code of each type; every type has one, so there is no failure. */
  function ToU16(t: QuestionType): (n: U16)
    ensures 1 <= n <= 16
  {
    match t
    case A => 1
    case NS => 2
    case MD => 3
    case MF => 4
    case CNAME => 5
    case SOA => 6
    case MB => 7
    case MG => 8
    case MR => 9
    case NULL => 10
    case WKS => 11
    case PTR => 12
    case HINFO => 13
    case MINFO => 14
    case MX => 15
    case TXT => 16
  }

  /** Every type, in the order of its code: the type with code `n` sits
      at index `n - 1`. */
  const Table: seq<QuestionType> :=
    [A, NS, MD, MF, CNAME, SOA, MB, MG, MR, NULL, WKS, PTR, HINFO, MINFO, MX, TXT]

  /** The type a code names; codes outside 1..16 are rejected. Which type
      a code names is `FromU16Code`. */
  function FromU16(n: U16): (r: Result<QuestionType>)
    ensures r.Ok? <==> 1 <= n <= 16
    ensures r.Err? ==> r.failure == Returned
  {
    if 1 <= n <= 16 then Ok(Table[n - 1]) else Err(Returned)
  }

  /** A code that is accepted names the type with that code. */
  lemma FromU16Code(n: U16)
    requires FromU16(n).Ok?
    ensures ToU16(FromU16(n).value) == n
  {
    assert forall i :: 0 <= i < |Table| ==> ToU16(Table[i]) == i + 1;
  }

  /** Converting a type to its code and back gives the type. */
  lemma FromU16ToU16(t: QuestionType)
    ensures FromU16(ToU16(t)) == Ok(t)
  {
  }

  /** Distinct types have distinct codes. */
  lemma ToU16Injective(s: QuestionType, t: QuestionType)
    requires ToU16(s) == ToU16(t)
    ensures s == t
  {
    FromU16ToU16(s);
    FromU16ToU16(t);
  }
}
