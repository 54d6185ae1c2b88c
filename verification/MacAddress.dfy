/** Hardware addresses as text: colon-separated pairs of lower-case hexadecimal digits. */
module MacAddress {
  import opened Text

  type byte = x: int | 0 <= x < 0x100

  function Digit(d: int): char
    requires 0 <= d < 16
  {
    if d < 10 then ('0' as int + d) as char else ('a' as int + d - 10) as char
  }

  /** A byte through setw(2), setfill('0') and hex. */
  function Pair(b: byte): (s: string)
    ensures |s| == 2
  {
    [Digit(b / 16), Digit(b % 16)]
  }

  function Format(bytes: seq<byte>): string {
    if bytes == [] then "" else
      var n := |bytes| - 1;
      (if n == 0 then "" else Format(bytes[..n]) + ":") + Pair(bytes[n])
  }

  /** The loop of the interface enumeration, which puts a colon behind all bytes but the last. */
  method FormatWithInnerTest(bytes: seq<byte>) returns (mac: string)
    ensures mac == Format(bytes)
  {
    hide Pair;
    mac := "";
    var i := 0;
    while i < |bytes|
      invariant 0 <= i <= |bytes|
      invariant mac == Format(bytes[..i]) + if 0 < i < |bytes| then ":" else ""
    {
      assert bytes[..i + 1][..i] == bytes[..i];
      mac := mac + Pair(bytes[i]) + if i < |bytes| - 1 then ":" else "";
      i := i + 1;
    }
    assert bytes[..i] == bytes;
  }

  /** The loop of the adapter enumeration, which leaves the last byte for after the loop. */
  method FormatWithLastApart(bytes: seq<byte>) returns (mac: string)
    requires bytes != []
    ensures mac == Format(bytes)
  {
    hide Pair;
    mac := "";
    var i := 0;
    while i < |bytes| - 1
      invariant 0 <= i < |bytes|
      invariant mac == Format(bytes[..i]) + if 0 < i then ":" else ""
    {
      assert bytes[..i + 1][..i] == bytes[..i];
      mac := mac + Pair(bytes[i]) + ":";
      i := i + 1;
    }
    mac := mac + Pair(bytes[i]);
    assert bytes[..i] == bytes[..|bytes| - 1];
  }

  function DigitValue(c: char): int {
    if '0' <= c <= '9' then c as int - '0' as int else c as int - 'a' as int + 10
  }

  /** The bytes of a formatted address. */
  function Decode(s: string): seq<int>
    decreases |s|
  {
    if |s| < 2 then [] else
      var n := |s| - 2;
      (if n == 0 then [] else Decode(s[..n - 1])) + [16 * DigitValue(s[n]) + DigitValue(s[n + 1])]
  }

  function PairValue(p: string): int
    requires |p| == 2
  {
    16 * DigitValue(p[0]) + DigitValue(p[1])
  }

  lemma PairRoundTrips(b: byte)
    ensures PairValue(Pair(b)) == b && SpaceFree(Pair(b))
  {
  }

  /** Digits are lower-case hexadecimal ones, the higher first. */
  lemma PairIsHexadecimal(b: byte)
    ensures Pair(b) == ["0123456789abcdef"[b / 16], "0123456789abcdef"[b % 16]]
  {
  }

  lemma {:induction false} FormatLength(bytes: seq<byte>)
    requires bytes != []
    ensures |Format(bytes)| == 3 * |bytes| - 1
  {
    hide Pair;
    if |bytes| > 1 {
      FormatLength(bytes[..|bytes| - 1]);
    }
  }

  lemma {:induction false} FormatAt(bytes: seq<byte>, k: nat)
    requires k < |bytes| && |Format(bytes)| == 3 * |bytes| - 1
    ensures Format(bytes)[3 * k] == Pair(bytes[k])[0] && Format(bytes)[3 * k + 1] == Pair(bytes[k])[1]
    ensures k > 0 ==> Format(bytes)[3 * k - 1] == ':'
  {
    hide Pair;
    var n := |bytes| - 1;
    if n > 0 {
      FormatLength(bytes[..n]);
      var front := Format(bytes[..n]);
      assert Format(bytes) == front + ":" + Pair(bytes[n]);
      if k < n {
        FormatAt(bytes[..n], k);
      }
    }
  }

  /** n bytes give 3n-1 characters: two digits for each byte and a colon between bytes. */
  lemma FormatLayout(bytes: seq<byte>)
    requires bytes != []
    ensures |Format(bytes)| == 3 * |bytes| - 1
    ensures forall k :: 0 <= k < |bytes| ==>
      Format(bytes)[3 * k] == Pair(bytes[k])[0] && Format(bytes)[3 * k + 1] == Pair(bytes[k])[1]
    ensures forall k :: 0 < k < |bytes| ==> Format(bytes)[3 * k - 1] == ':'
  {
    FormatLength(bytes);
    hide Pair, Format;
    forall k | 0 <= k < |bytes|
      ensures Format(bytes)[3 * k] == Pair(bytes[k])[0] && Format(bytes)[3 * k + 1] == Pair(bytes[k])[1]
      ensures k > 0 ==> Format(bytes)[3 * k - 1] == ':'
    {
      FormatAt(bytes, k);
    }
  }

  /** A formatted address is a single token. */
  lemma {:induction false} FormatIsSpaceFree(bytes: seq<byte>)
    ensures SpaceFree(Format(bytes))
  {
    if bytes != [] {
      var n := |bytes| - 1;
      FormatIsSpaceFree(bytes[..n]);
      PairRoundTrips(bytes[n]);
      hide Pair;
    }
  }

  lemma DecodeSnoc(front: string, p: string)
    requires |p| == 2
    ensures Decode(p) == [PairValue(p)]
    ensures front != "" ==> Decode(front + ":" + p) == Decode(front) + [PairValue(p)]
  {
    var s := front + ":" + p;
    assert s[..|s| - 3] == front;
  }

  lemma DecodeNext(text: string, front: seq<byte>, b: byte)
    requires Decode(text) == front && (text == "" <==> front == [])
    ensures Decode(if front == [] then Pair(b) else text + ":" + Pair(b)) == front + [b]
  {
    PairRoundTrips(b);
    DecodeSnoc(text, Pair(b));
    hide Pair, PairValue, Decode, SpaceFree;
  }

  lemma FormatSnoc(bytes: seq<byte>)
    requires bytes != []
    ensures var n := |bytes| - 1;
      Format(bytes) == if n == 0 then Pair(bytes[n]) else Format(bytes[..n]) + ":" + Pair(bytes[n])
  {
    hide Pair;
  }

  /** Decoding gives the bytes back. */
  lemma {:induction false} DecodeFormat(bytes: seq<byte>)
    ensures Decode(Format(bytes)) == bytes
  {
    if bytes != [] {
      var n := |bytes| - 1;
      var front, b := bytes[..n], bytes[n];
      FormatSnoc(bytes);
      hide Pair, Decode, Format;
      DecodeFormat(front);
      if n > 0 {
        FormatLength(front);
      }
      DecodeNext(Format(front), front, b);
      assert bytes == front + [b];
    }
  }

  /** Different addresses have different texts. */
  lemma FormatIsInjective(a: seq<byte>, b: seq<byte>)
    requires Format(a) == Format(b)
    ensures a == b
  {
    DecodeFormat(a);
    DecodeFormat(b);
  }
}
