/** The pieces of JavaScript's number and string semantics that the date
    formatter relies on: an integer-or-NaN number, `+` of a number and an
    integer, the coercion `String(x)` that `"0" + x` performs, and
    `String.prototype.slice` with one argument. */
module JsText {
  import opened Decimal

  /** The values a `Date` getter can return: an integer, or NaN for an
      invalid date. */
  datatype Number = Int(v: int) | NaN

  /** JavaScript `x + k` on a number and an integer: NaN absorbs. */
  function Add(x: Number, k: int): (r: Number)
    ensures r.NaN? <==> x.NaN?
    ensures x.Int? ==> r.v - k == x.v
  {
    match x
    case Int(v) => Int(v + k)
    case NaN => NaN
  }

  /** The text `String(x)` for an integer or NaN: plain decimal with a
      leading `-` for negatives, and `NaN`. */
  function ToString(x: Number): (s: string)
    ensures 1 <= |s|
    ensures x.Int? && 0 <= x.v ==> AllDigits(s) && s[0] != '-'
    ensures x.Int? && x.v < 0 ==> s[0] == '-' && AllDigits(s[1..])
    ensures x.NaN? ==> s == "NaN"
  {
    match x
    case Int(v) => if v < 0 then "-" + NatToString(-v) else NatToString(v)
    case NaN => "NaN"
  }

  /** `s.slice(start)`: a negative start counts from the end and is clamped
      to the beginning, a start past the end gives the empty string. */
  function Slice(s: string, start: int): (r: string)
    ensures start < 0 ==> |r| == if -start <= |s| then -start else |s|
    ensures 0 <= start ==> |r| == if start <= |s| then |s| - start else 0
    ensures r == s[|s| - |r|..]
  {
    var from := if start < 0 then (if |s| + start < 0 then 0 else |s| + start)
                else (if start <= |s| then start else |s|);
    s[from..]
  }

  /** The text of every integer reads back as that integer. */
  lemma IntToStringRoundTrip(v: int)
    ensures ParseInt(ToString(Int(v))) == Some(v)
  {
    var s := ToString(Int(v));
    if v < 0 {
      var digits := NatToString(-v);
      NatToStringRoundTrip(-v);
      assert s == "-" + digits;
      assert s[1..] == digits;
      assert ParseNat(s[1..]) == Some(-v);
    } else {
      NatToStringRoundTrip(v);
      assert s == NatToString(v);
      assert ParseNat(s) == Some(v);
    }
  }
}
