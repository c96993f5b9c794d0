/** The PHP values the builder handles: the values passed to a builder call and
    the nodes of an already-parsed command definition document. PHP's ordered
    arrays are sequences of key/value entries; list keys are "0", "1", ... */
module PhpValues {
  import opened Sequences

  datatype Value =
    | Null
    | Bool(b: bool)
    | Int(i: int)
    | Str(s: string)
    | Arr(entries: seq<(string, Value)>)

  /** PHP's `empty()`: null, false, 0, "", "0" and the empty array. */
  predicate IsEmpty(v: Value) {
    match v
    case Null => true
    case Bool(b) => !b
    case Int(i) => i == 0
    case Str(s) => s == "" || s == "0"
    case Arr(entries) => |entries| == 0
  }

  /** The values of an array in order, as `foreach`, `in_array` and `implode` see them. */
  function ArrayValues(entries: seq<(string, Value)>): (r: seq<Value>)
    ensures |r| == |entries|
    ensures forall i :: 0 <= i < |entries| ==> r[i] == entries[i].1
  {
    seq(|entries|, i requires 0 <= i < |entries| => entries[i].1)
  }

  predicate IsDigit(c: char) {
    '0' <= c <= '9'
  }

  function DigitChar(d: nat): (c: char)
    requires d < 10
    ensures IsDigit(c)
  {
    "0123456789"[d]
  }

  function DigitValue(c: char): nat
    requires IsDigit(c)
  {
    c as int - '0' as int
  }

  /** Decimal digits of `n`, most significant first, without leading zeros. */
  function NatToString(n: nat): (r: string)
    ensures |r| > 0
    ensures forall i :: 0 <= i < |r| ==> IsDigit(r[i])
    decreases n
  {
    if n < 10 then [DigitChar(n)] else NatToString(n / 10) + [DigitChar(n % 10)]
  }

  /** The number a string of decimal digits denotes. */
  function ParseNat(s: string): nat
    requires forall i :: 0 <= i < |s| ==> IsDigit(s[i])
    decreases |s|
  {
    if |s| == 0 then 0 else ParseNat(s[..|s| - 1]) * 10 + DigitValue(s[|s| - 1])
  }

  /** Reading back the digits of `n` gives `n`: the conversion loses nothing. */
  lemma {:induction false} NatToStringRoundTrip(n: nat)
    ensures ParseNat(NatToString(n)) == n
    decreases n
  {
    if n >= 10 {
      var s := NatToString(n);
      assert s[..|s| - 1] == NatToString(n / 10);
      NatToStringRoundTrip(n / 10);
    }
  }

  /** PHP's integer-to-string conversion. */
  function IntToString(i: int): (r: string)
    ensures |r| > 0
    ensures (r[0] == '-') <==> i < 0
  {
    if i < 0 then "-" + NatToString(-i) else NatToString(i)
  }

  /** PHP's string conversion as `implode` applies it to each element:
      true is "1", false and null are "", a nested array is "Array". */
  function ToPhpString(v: Value): string {
    match v
    case Null => ""
    case Bool(b) => if b then "1" else ""
    case Int(i) => IntToString(i)
    case Str(s) => s
    case Arr(_) => "Array"
  }

  function ToPhpStrings(values: seq<Value>): (r: seq<string>)
    ensures |r| == |values|
    ensures forall i :: 0 <= i < |values| ==> r[i] == ToPhpString(values[i])
  {
    seq(|values|, i requires 0 <= i < |values| => ToPhpString(values[i]))
  }

  /** `implode(glue, values)`. */
  function Implode(glue: char, values: seq<Value>): string {
    Join(glue, ToPhpStrings(values))
  }

  /** Splitting an imploded value at the glue gives back each element's string
      form, in order, provided no element contains the glue. */
  lemma ImplodeRoundTrip(glue: char, values: seq<Value>)
    requires |values| > 0
    requires forall i :: 0 <= i < |values| ==> glue !in ToPhpString(values[i])
    ensures Split(glue, Implode(glue, values)) == ToPhpStrings(values)
  {
    SplitJoin(glue, ToPhpStrings(values));
  }
}
