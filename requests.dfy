/**
 * The two input checks shared by both server variants: `!title || !content`
 * over the JSON body's fields, and `parseInt(req.params.id)` followed by
 * `!id || isNaN(id)`.
 */
module Requests {
  import opened Wrappers
  import opened JsParse

  /** JavaScript truthiness of an optional string field: undefined, null and "" are falsy. */
  predicate Truthy(v: Option<string>) {
    v.Some? && |v.value| > 0
  }

  /** The falsy fields are exactly an absent one and the empty string. */
  lemma FalsyFields(v: Option<string>)
    ensures !Truthy(v) <==> v == None || v == Some("")
  {
    if v.Some? && |v.value| == 0 {
      assert v.value == "";
    }
  }

  /** `!title || !content`: true when either field is absent or empty. */
  function TitleOrContentMissing(title: Option<string>, content: Option<string>): (missing: bool)
    ensures !missing ==> title.Some? && content.Some? && |title.value| > 0 && |content.value| > 0
    ensures missing <==> title == None || title == Some("") || content == None || content == Some("")
  {
    FalsyFields(title);
    FalsyFields(content);
    !Truthy(title) || !Truthy(content)
  }

  /** The note id a PUT or DELETE route accepts: `parseInt` of the path
      parameter, rejected (`None`) when it is NaN or zero. */
  function NoteId(param: string): (id: Option<int>)
    ensures id.Some? <==> ParseInt(param) != NaN && ParseInt(param) != Finite(0)
    ensures id.Some? ==> id.value != 0 && ParseInt(param) == Finite(id.value)
  {
    match ParseInt(param)
    case NaN => None
    case Finite(v) => if v == 0 then None else Some(v)
  }

  /** Every non-zero id the client writes into a URL is accepted as that id
      (so "-3" is note -3). */
  lemma {:induction false} NoteIdOfNumber(i: int)
    requires i != 0
    ensures NoteId(NumberToString(i)) == Some(i)
  {
    ParseIntRoundTrip(i);
  }

  /** Trailing text after the digits is ignored (so "12abc" is note 12), as
      long as it does not start with a digit ("12x" is note 12 too). */
  lemma {:induction false} NoteIdIgnoresTrailing(i: int, rest: string)
    requires i != 0
    requires rest == [] || !IsRadixDigit(rest[0], 10)
    ensures NoteId(NumberToString(i) + rest) == Some(i)
  {
    ParseIntOfNumberThen(i, rest);
  }

  /** Zero is rejected, however many zeros are written and with or without a
      minus sign ("0", "-0", "000"). */
  lemma {:induction false} NoteIdRejectsZero(sign: string, zeros: string)
    requires sign == "" || sign == "-"
    requires |zeros| > 0 && forall k :: 0 <= k < |zeros| ==> zeros[k] == '0'
    ensures NoteId(sign + zeros) == None
  {
    ZerosValue(zeros);
    ParseIntOfDigits(sign + zeros, sign, zeros, "");
  }

  /** A string of zeros has value zero. */
  lemma {:induction false} ZerosValue(zeros: string)
    requires forall k :: 0 <= k < |zeros| ==> zeros[k] == '0'
    ensures DigitsValue(zeros, 10) == 0
  {
    if zeros != [] {
      ZerosValue(zeros[..|zeros| - 1]);
    }
  }

  /** Text that, after leading white space, starts with neither a sign nor a
      digit is rejected: the "undefined" a client writes into the URL for a
      note without an id is one. */
  lemma {:induction false} NoteIdRejectsNonNumeric(s: string)
    requires var t := TrimStart(s); t != [] && t[0] != '+' && t[0] != '-' && !IsRadixDigit(t[0], 10)
    ensures NoteId(s) == None
  {
    var t := TrimStart(s);
    assert Unsigned(t) == t;
    assert DigitPrefix(t, 10) == [];
  }

  /** The id of an entry without one, written into the URL, is rejected. */
  lemma UndefinedIdRejected()
    ensures NoteId("undefined") == None
  {
    var s := "undefined";
    assert s[0] == 'u';
    TrimStartNoop(s);
    NoteIdRejectsNonNumeric(s);
  }
}
