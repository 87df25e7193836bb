/** The UTF-8 test of the decoders against the encoding itself: it accepts exactly the encoded texts. */
module Unicode {
  import opened Prelude
  import opened Codec

  /** A code point that is not a surrogate. */
  type Scalar = c: int | 0 <= c < 0xD800 || 0xE000 <= c < 0x11_0000

  /** The UTF-8 form of one character. */
  function Utf8Of(c: Scalar): (r: Bytes)
    ensures r != []
  {
    if c < 0x80 then [c]
    else if c < 0x800 then Two(c / 0x40, c % 0x40)
    else if c < 0x1_0000 then Three(c / 0x40 / 0x40, c / 0x40 % 0x40, c % 0x40)
    else Four(c / 0x40 / 0x40 / 0x40, c / 0x40 / 0x40 % 0x40, c / 0x40 % 0x40, c % 0x40)
  }

  function Two(a: nat, b: nat): (r: Bytes)
    requires a < 0x20 && b < 0x40
  {
    [0xC0 + a, 0x80 + b]
  }

  function Three(a: nat, b: nat, c: nat): (r: Bytes)
    requires a < 0x10 && b < 0x40 && c < 0x40
  {
    [0xE0 + a, 0x80 + b, 0x80 + c]
  }

  function Four(a: nat, b: nat, c: nat, d: nat): (r: Bytes)
    requires a < 8 && b < 0x40 && c < 0x40 && d < 0x40
  {
    [0xF0 + a, 0x80 + b, 0x80 + c, 0x80 + d]
  }

  /** The UTF-8 form of a text. */
  function TextOf(cs: seq<Scalar>): (r: Bytes)
  {
    if cs == [] then [] else Utf8Of(cs[0]) + TextOf(cs[1..])
  }

  // ---------------------------------------------------------------- encoded characters are accepted

  lemma TwoAccepted(a: nat, b: nat, rest: Bytes)
    requires 2 <= a < 0x20 && b < 0x40
    ensures Utf8Char(Two(a, b) + rest) == 2
  {
  }

  lemma ThreeAccepted(a: nat, b: nat, c: nat, rest: Bytes)
    requires a < 0x10 && b < 0x40 && c < 0x40
    requires (a == 0 ==> b >= 0x20) && (a == 0xD ==> b < 0x20)
    ensures Utf8Char(Three(a, b, c) + rest) == 3
  {
    var s := Three(a, b, c) + rest;
    assert s[0] == 0xE0 + a && s[1] == 0x80 + b && s[2] == 0x80 + c;
  }

  lemma FourAccepted(a: nat, b: nat, c: nat, d: nat, rest: Bytes)
    requires a <= 4 && b < 0x40 && c < 0x40 && d < 0x40
    requires (a == 0 ==> b >= 0x10) && (a == 4 ==> b < 0x10)
    ensures Utf8Char(Four(a, b, c, d) + rest) == 4
  {
    var s := Four(a, b, c, d) + rest;
    assert s[0] == 0xF0 + a && s[1] == 0x80 + b && s[2] == 0x80 + c && s[3] == 0x80 + d;
  }

  lemma CharAccepted(c: Scalar, rest: Bytes)
    ensures Utf8Char(Utf8Of(c) + rest) == |Utf8Of(c)|
  {
    if c < 0x80 {
    } else if c < 0x800 {
      TwoAccepted(c / 0x40, c % 0x40, rest);
    } else if c < 0x1_0000 {
      ThreeAccepted(c / 0x40 / 0x40, c / 0x40 % 0x40, c % 0x40, rest);
    } else {
      FourAccepted(c / 0x40 / 0x40 / 0x40, c / 0x40 / 0x40 % 0x40, c / 0x40 % 0x40, c % 0x40, rest);
    }
  }

  lemma {:induction false} TextAccepted(cs: seq<Scalar>)
    ensures Utf8(TextOf(cs))
  {
    if cs != [] {
      var first, rest := Utf8Of(cs[0]), TextOf(cs[1..]);
      CharAccepted(cs[0], rest);
      TextAccepted(cs[1..]);
      assert (first + rest)[|first|..] == rest;
    }
  }

  // ---------------------------------------------------------------- accepted characters are encoded

  lemma SixBits(x: nat, b: nat)
    requires b < 0x40
    ensures (0x40 * x + b) / 0x40 == x && (0x40 * x + b) % 0x40 == b
  {
  }

  lemma TwoEncodes(a: nat, b: nat) returns (c: Scalar)
    requires 2 <= a < 0x20 && b < 0x40
    ensures Utf8Of(c) == Two(a, b)
  {
    c := 0x40 * a + b;
    SixBits(a, b);
  }

  lemma ThreeEncodes(a: nat, b: nat, d: nat) returns (c: Scalar)
    requires a < 0x10 && b < 0x40 && d < 0x40
    requires (a == 0 ==> b >= 0x20) && (a == 0xD ==> b < 0x20)
    ensures Utf8Of(c) == Three(a, b, d)
  {
    var x := 0x40 * a + b;
    c := 0x40 * x + d;
    SixBits(x, d);
    SixBits(a, b);
  }

  lemma FourEncodes(a: nat, b: nat, d: nat, e: nat) returns (c: Scalar)
    requires a <= 4 && b < 0x40 && d < 0x40 && e < 0x40
    requires (a == 0 ==> b >= 0x10) && (a == 4 ==> b < 0x10)
    ensures Utf8Of(c) == Four(a, b, d, e)
  {
    var x := 0x40 * a + b;
    var y := 0x40 * x + d;
    c := 0x40 * y + e;
    SixBits(y, e);
    SixBits(x, d);
    SixBits(a, b);
  }

  lemma CharEncoded(s: Bytes) returns (c: Scalar)
    requires Utf8Char(s) > 0
    ensures Utf8Of(c) == s[..Utf8Char(s)]
  {
    var n := Utf8Char(s);
    if n == 1 {
      c := s[0];
    } else if n == 2 {
      c := TwoEncodes(s[0] - 0xC0, s[1] - 0x80);
    } else if n == 3 {
      c := ThreeEncodes(s[0] - 0xE0, s[1] - 0x80, s[2] - 0x80);
    } else {
      c := FourEncodes(s[0] - 0xF0, s[1] - 0x80, s[2] - 0x80, s[3] - 0x80);
    }
  }

  lemma {:induction false} TextEncoded(s: Bytes) returns (cs: seq<Scalar>)
    requires Utf8(s)
    ensures TextOf(cs) == s
    decreases |s|
  {
    if s == [] {
      cs := [];
    } else {
      var n := Utf8Char(s);
      var c := CharEncoded(s);
      var more := TextEncoded(s[n..]);
      cs := [c] + more;
      assert cs[0] == c && cs[1..] == more;
      assert s == s[..n] + s[n..];
    }
  }

  /** The decoders take a string exactly if it is the UTF-8 form of some text. */
  lemma Utf8Exact(s: Bytes)
    ensures Utf8(s) <==> exists cs: seq<Scalar> :: TextOf(cs) == s
  {
    if Utf8(s) { var cs := TextEncoded(s); }
    forall cs: seq<Scalar> | TextOf(cs) == s ensures Utf8(s) { TextAccepted(cs); }
  }
}
