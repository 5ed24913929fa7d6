/** Character classes and the optional-value wrapper shared by the card-number
    validator and the text manipulator. */
module Common {

  /** A value that may be absent: the JavaScript `null` of the modelled API. */
  datatype Option<+T> = None | Some(value: T)

  predicate IsDigit(c: char) {
    '0' <= c <= '9'
  }

  /** Every character of `s` is one of '0'..'9'. */
  predicate AllDigits(s: string) {
    forall k :: 0 <= k < |s| ==> IsDigit(s[k])
  }

  /** No character of `s` is one of '0'..'9'. */
  predicate NoDigit(s: string) {
    forall k :: 0 <= k < |s| ==> !IsDigit(s[k])
  }
}
