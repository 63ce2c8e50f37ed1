/** The input record the client sends every frame: the JSON object
    `{"dx": <dx>, "dy": <dy>}` as written with default separators, followed by the
    record terminator. */
module Input {

  import opened Wrappers
  import opened Wire

  const Minus: byte := 45
  const Comma: byte := 44
  const Zero: byte := 48
  const CloseBrace: byte := 125

  /** The bytes `{"dx": ` (with its trailing space). */
  const DxKey: seq<byte> := [123, 34, 100, 120, 34, 58, 32]

  /** The bytes `, "dy": ` (with its trailing space). */
  const DyKey: seq<byte> := [44, 32, 34, 100, 121, 34, 58, 32]

  predicate IsDigit(b: byte)
  {
    Zero <= b <= Zero + 9
  }

  predicate AllDigits(s: seq<byte>)
  {
    forall i | 0 <= i < |s| :: IsDigit(s[i])
  }

  /** The decimal digits of `n`, most significant first, with no leading zero. */
  function Digits(n: nat): (r: seq<byte>)
    ensures |r| > 0 && AllDigits(r)
    ensures r[0] == Zero <==> n == 0
    decreases n
  {
    if n < 10 then [Zero + n] else Digits(n / 10) + [Zero + n % 10]
  }

  /** An integer as JSON writes it: a minus sign for a negative value, then digits. */
  function DecimalText(n: int): (r: seq<byte>)
    ensures |r| > 0 && (r[0] == Minus <==> n < 0)
    ensures NL !in r && Comma !in r && CloseBrace !in r
  {
    var d := Digits(if n < 0 then -n else n);
    assert forall i | 0 <= i < |d| :: d[i] != NL && d[i] != Comma && d[i] != CloseBrace && d[i] != Minus;
    if n < 0 then [Minus] + d else d
  }

  /** The body of the input record: one JSON object on one line. */
  function InputBody(dx: int, dy: int): (r: seq<byte>)
    ensures NL !in r
    ensures |r| > |DxKey| && r[..|DxKey|] == DxKey && r[|r| - 1] == CloseBrace
  {
    var t1, t2 := DecimalText(dx), DecimalText(dy);
    var r := DxKey + t1 + DyKey + t2 + [CloseBrace];
    assert r == DxKey + (t1 + DyKey + t2 + [CloseBrace]);
    r
  }

  /** The record `send_input` writes: one newline, and only as the last byte. */
  function InputRecord(dx: int, dy: int): (r: seq<byte>)
    ensures |r| > 0 && r[|r| - 1] == NL && NL !in r[..|r| - 1]
  {
    var r := InputBody(dx, dy) + [NL];
    assert r[..|r| - 1] == InputBody(dx, dy);
    r
  }

  /** The value of a run of decimal digits. */
  function ParseDigits(s: seq<byte>): nat
    requires AllDigits(s)
    decreases |s|
  {
    if s == [] then 0 else 10 * ParseDigits(s[..|s| - 1]) + (s[|s| - 1] - Zero)
  }

  /** An optional minus sign followed by at least one digit, or nothing. */
  function ParseDecimal(s: seq<byte>): Option<int>
  {
    if |s| > 1 && s[0] == Minus && AllDigits(s[1..]) then
      var magnitude: int := ParseDigits(s[1..]);
      Some(-magnitude)
    else if |s| > 0 && AllDigits(s) then Some(ParseDigits(s))
    else None
  }

  /** A reader of input records in exactly the form the client writes them. */
  function ParseInput(s: seq<byte>): Option<(int, int)>
  {
    if |s| <= |DxKey| || s[..|DxKey|] != DxKey || s[|s| - 1] != CloseBrace then None
    else
      var inner := s[|DxKey|..|s| - 1];
      if Comma !in inner then None
      else
        var k := IndexOf(inner, Comma);
        var rest := inner[k..];
        if |rest| < |DyKey| || rest[..|DyKey|] != DyKey then None
        else
          match (ParseDecimal(inner[..k]), ParseDecimal(rest[|DyKey|..]))
          case (Some(dx), Some(dy)) => Some((dx, dy))
          case _ => None
  }

  lemma {:induction false} DigitsRoundTrip(n: nat)
    ensures ParseDigits(Digits(n)) == n
    decreases n
  {
    if n >= 10 {
      var d := Digits(n);
      assert d[..|d| - 1] == Digits(n / 10);
      DigitsRoundTrip(n / 10);
    }
  }

  /** Reading back the decimal text of any integer gives that integer. */
  lemma DecimalRoundTrip(n: int)
    ensures ParseDecimal(DecimalText(n)) == Some(n)
  {
    if n < 0 {
      var t := DecimalText(n);
      assert t[1..] == Digits(-n);
      DigitsRoundTrip(-n);
    } else {
      DigitsRoundTrip(n);
    }
  }

  /** The input record is exactly one record for the reader's framing, and no
      bytes are left over. */
  lemma InputIsOneRecord(dx: int, dy: int)
    ensures Lines(InputRecord(dx, dy)) == [InputBody(dx, dy)]
    ensures Tail(InputRecord(dx, dy)) == []
  {
    var body := InputBody(dx, dy);
    SplitAtFirst(body, []);
    assert body + [NL] + [] == InputRecord(dx, dy);
  }

  /** Reading the body back gives exactly the deltas it was built from. */
  lemma InputRoundTrip(dx: int, dy: int)
    ensures ParseInput(InputBody(dx, dy)) == Some((dx, dy))
  {
    var t1, t2 := DecimalText(dx), DecimalText(dy);
    assert InputBody(dx, dy) == DxKey + (t1 + (DyKey + t2)) + [CloseBrace];
    DecimalRoundTrip(dx);
    DecimalRoundTrip(dy);
    ParseInputOf(t1, t2);
  }

  /** How the reader takes apart a body of the client's shape. */
  lemma ParseInputOf(t1: seq<byte>, t2: seq<byte>)
    requires Comma !in t1
    ensures ParseInput(DxKey + (t1 + (DyKey + t2)) + [CloseBrace]) ==
      match (ParseDecimal(t1), ParseDecimal(t2))
      case (Some(dx), Some(dy)) => Some((dx, dy))
      case _ => None
  {
    var inner := t1 + (DyKey + t2);
    var body := DxKey + inner + [CloseBrace];
    assert body[..|DxKey|] == DxKey && body[|body| - 1] == CloseBrace by {
      Halves(DxKey, inner + [CloseBrace]);
    }
    assert body[|DxKey|..|body| - 1] == inner by {
      Halves(DxKey + inner, [CloseBrace]);
      Halves(DxKey, inner);
    }
    assert Comma in inner && IndexOf(inner, Comma) == |t1| by {
      assert inner == t1 + [Comma] + (DyKey[1..] + t2);
      FirstIndexAfter(t1, DyKey[1..] + t2, Comma);
    }
    assert inner[..|t1|] == t1 && inner[|t1|..] == DyKey + t2 by {
      Halves(t1, DyKey + t2);
    }
    assert (DyKey + t2)[..|DyKey|] == DyKey && (DyKey + t2)[|DyKey|..] == t2 by {
      Halves(DyKey, t2);
    }
  }

  lemma Halves<T>(x: seq<T>, y: seq<T>)
    ensures (x + y)[..|x|] == x && (x + y)[|x|..] == y
  {
  }
}
