/** `android.util.Base64` with the `DEFAULT` flag, as the key store uses it.

    Encoding follows RFC 4648 section 4 (standard alphabet, `=` padding) and
    then, as `DEFAULT` asks, breaks the text into lines of 76 characters, each
    ended by a line feed, the last (possibly shorter) line included.

    Decoding is Android's lenient decoder: a six-state machine over the input
    characters that silently skips every character outside the alphabet and
    `=`, and rejects misplaced padding or a dangling sixth bit group. */
module Base64 {
  import opened Wrappers
  import opened Bytes

  /** Characters per output line under the `DEFAULT` flag (19 groups of 4). */
  const LineLength: nat := 76

  /** Decoder classes of a character besides its 6-bit value. */
  const Skip: int := -1
  const Equals: int := -2

  type Sextet = v: int | 0 <= v < 64

  /** The character that encodes a 6-bit value in the alphabet of RFC 4648
      section 4: `A`-`Z`, `a`-`z`, `0`-`9`, `+`, `/`. */
  function CharOf(v: Sextet): (c: char)
    ensures c != '=' && c != '\n'
  {
    if v < 26 then ('A' as int + v) as char
    else if v < 52 then ('a' as int + (v - 26)) as char
    else if v < 62 then ('0' as int + (v - 52)) as char
    else if v == 62 then '+'
    else '/'
  }

  /** The decoder's table: a 6-bit value, `Equals`, or `Skip` for every other
      character (line breaks and anything else). */
  function Classify(c: char): (d: int)
    ensures -2 <= d < 64
    ensures d == Equals <==> c == '='
  {
    if 'A' <= c <= 'Z' then c as int - 'A' as int
    else if 'a' <= c <= 'z' then c as int - 'a' as int + 26
    else if '0' <= c <= '9' then c as int - '0' as int + 52
    else if c == '+' then 62
    else if c == '/' then 63
    else if c == '=' then Equals
    else Skip
  }

  /** Every alphabet character is classified as the value it encodes. */
  lemma ClassifyCharOf(v: Sextet)
    ensures Classify(CharOf(v)) == v
  {
  }

  // ---------------------------------------------------------------- encoding

  /** The four characters of one complete 3-byte group. */
  function EncodeGroup(b0: byte, b1: byte, b2: byte): string
  {
    [CharOf(b0 as int / 4), CharOf((b0 as int % 4) * 16 + b1 as int / 16),
     CharOf((b1 as int % 16) * 4 + b2 as int / 64), CharOf(b2 as int % 64)]
  }

  /** A final lone byte: two characters and two pad characters. */
  function EncodeLastOne(b0: byte): string
  {
    [CharOf(b0 as int / 4), CharOf((b0 as int % 4) * 16), '=', '=']
  }

  /** Two final bytes: three characters and one pad character. */
  function EncodeLastTwo(b0: byte, b1: byte): string
  {
    [CharOf(b0 as int / 4), CharOf((b0 as int % 4) * 16 + b1 as int / 16), CharOf((b1 as int % 16) * 4), '=']
  }

  /** RFC 4648 section 4 encoding with padding, without line breaks. */
  function EncodeUnwrapped(b: seq<byte>): (s: string)
    ensures |s| == 4 * ((|b| + 2) / 3)
    ensures forall i :: 0 <= i < |s| ==> s[i] != '\n'
    decreases |b|
  {
    if |b| == 0 then ""
    else if |b| == 1 then EncodeLastOne(b[0])
    else if |b| == 2 then EncodeLastTwo(b[0], b[1])
    else
      EncodeGroup(b[0], b[1], b[2]) + EncodeUnwrapped(b[3..])
  }

  /** The `DEFAULT` line layout: every 76 characters and the end of a
      non-empty text are followed by a line feed. */
  function Wrap(s: string): (w: string)
    ensures |s| == 0 <==> |w| == 0
    ensures |s| > 0 ==> |w| == |s| + (|s| + LineLength - 1) / LineLength && w[|w| - 1] == '\n'
    decreases |s|
  {
    if |s| == 0 then ""
    else if |s| <= LineLength then s + "\n"
    else s[..LineLength] + "\n" + Wrap(s[LineLength..])
  }

  /** `Base64.encodeToString(bytes, Base64.DEFAULT)`. */
  function Encode(b: seq<byte>): (s: string)
    ensures |s| == 0 <==> |b| == 0
    ensures |b| > 0 ==> s[|s| - 1] == '\n'
  {
    Wrap(EncodeUnwrapped(b))
  }

  /** Without the line breaks, the encoding of `n` bytes is `4 * ceil(n / 3)`
      characters, and a non-empty encoding of at most 57 bytes is one line. */
  lemma EncodeShortLength(b: seq<byte>)
    requires 0 < |b| <= 57
    ensures |Encode(b)| == 4 * ((|b| + 2) / 3) + 1
    ensures Encode(b)[|Encode(b)| - 1] == '\n'
  {
  }

  // ---------------------------------------------------------------- decoding

  /** The decoder's registers: its state (0 to 5), the bits accumulated in the
      current group, and the bytes produced so far. */
  datatype Decoder = Decoder(state: nat, value: int, output: seq<byte>)

  const Start := Decoder(0, 0, [])

  /** Java's `(byte)` cast of a non-negative int: its low eight bits. */
  function Low8(v: int): byte
    requires v >= 0
  {
    (v % 256) as byte
  }

  /** The bytes a complete group's 24 bits give. */
  function Emit3(v: int): seq<byte>
    requires v >= 0
  {
    [Low8(v / 65536), Low8(v / 256), Low8(v)]
  }

  /** The two bytes of 18 bits cut short by one `=`. */
  function Emit2(v: int): seq<byte>
    requires v >= 0
  {
    [Low8(v / 1024), Low8(v / 4)]
  }

  /** The byte of 12 bits cut short by `==`. */
  function Emit1(v: int): seq<byte>
    requires v >= 0
  {
    [Low8(v / 16)]
  }

  /** One input character; `None` is the "bad base-64" failure. */
  function Step(d: Decoder, c: char): (r: Option<Decoder>)
    requires d.value >= 0
    ensures r.Some? ==> r.value.value >= 0
  {
    var x := Classify(c);
    if x == Skip then Some(d)
    else if d.state == 0 then
      if x >= 0 then Some(Decoder(1, x, d.output)) else None
    else if d.state == 1 then
      if x >= 0 then Some(Decoder(2, d.value * 64 + x, d.output)) else None
    else if d.state == 2 then
      if x >= 0 then Some(Decoder(3, d.value * 64 + x, d.output))
      else Some(Decoder(4, d.value, d.output + Emit1(d.value)))
    else if d.state == 3 then
      if x >= 0 then
        var v := d.value * 64 + x;
        Some(Decoder(0, v, d.output + Emit3(v)))
      else Some(Decoder(5, d.value, d.output + Emit2(d.value)))
    else if d.state == 4 then
      if x == Equals then Some(d.(state := 5)) else None
    else None
  }

  /** Characters outside the alphabet are ignored, output is only ever
      appended to, a pad where no group has two characters yet fails, and so
      does data after padding. */
  lemma StepRules(d: Decoder, c: char)
    requires d.value >= 0
    ensures Classify(c) == Skip ==> Step(d, c) == Some(d)
    ensures Step(d, c).Some? ==> d.output <= Step(d, c).value.output
    ensures c == '=' && d.state < 2 ==> Step(d, c).None?
    ensures Classify(c) >= 0 && d.state >= 4 ==> Step(d, c).None?
  {
  }

  /** Feed a whole string to the decoder, stopping at the first failure. */
  function Run(d: Decoder, s: string): (r: Option<Decoder>)
    requires d.value >= 0
    ensures r.Some? ==> r.value.value >= 0
    decreases |s|
  {
    if |s| == 0 then Some(d)
    else
      match Step(d, s[0])
      case None => None
      case Some(d') => Run(d', s[1..])
  }

  /** A run only ever appends to the output. */
  lemma {:induction false} RunExtends(d: Decoder, s: string)
    requires d.value >= 0
    ensures Run(d, s).Some? ==> d.output <= Run(d, s).value.output
    decreases |s|
  {
    if |s| > 0 && Step(d, s[0]).Some? {
      StepRules(d, s[0]);
      RunExtends(Step(d, s[0]).value, s[1..]);
    }
  }

  /** End of input: a lone leftover character or a half-finished padding is
      rejected; two or three leftover characters still yield bytes. */
  function Finish(d: Decoder): (r: Option<seq<byte>>)
    requires d.value >= 0
    ensures r.None? <==> d.state == 1 || d.state == 4
  {
    if d.state == 0 then Some(d.output)
    else if d.state == 1 then None
    else if d.state == 2 then Some(d.output + Emit1(d.value))
    else if d.state == 3 then Some(d.output + Emit2(d.value))
    else if d.state == 4 then None
    else Some(d.output)
  }

  /** Finishing keeps the bytes already decoded and adds at most two. */
  lemma FinishExtends(d: Decoder)
    requires d.value >= 0
    ensures Finish(d).Some? ==> d.output <= Finish(d).value && |Finish(d).value| <= |d.output| + 2
  {
  }

  /** `Base64.decode(text, Base64.DEFAULT)`; `None` is the
      `IllegalArgumentException` it throws on bad input. */
  function Decode(s: string): (r: Option<seq<byte>>)
    ensures |s| > 0 && s[0] == '=' ==> r.None?
  {
    match Run(Start, s)
    case None => None
    case Some(d) => Finish(d)
  }

  /** Text made only of characters the decoder skips (line breaks, blanks)
      decodes to no bytes. */
  lemma DecodeBlank(s: string)
    requires forall i :: 0 <= i < |s| ==> Classify(s[i]) == Skip
    ensures Decode(s) == Some([])
  {
    RunSkipped(Start, s);
  }

  /** Text with nothing but characters the decoder skips leaves it as it was. */
  lemma {:induction false} RunSkipped(d: Decoder, s: string)
    requires d.value >= 0
    ensures (forall i :: 0 <= i < |s| ==> Classify(s[i]) == Skip) ==> Run(d, s) == Some(d)
    decreases |s|
  {
    if |s| > 0 && forall i :: 0 <= i < |s| ==> Classify(s[i]) == Skip {
      assert Classify(s[0]) == Skip;
      StepRules(d, s[0]);
      assert forall i :: 0 <= i < |s[1..]| ==> Classify(s[1..][i]) == Skip by {
        forall i | 0 <= i < |s[1..]| ensures Classify(s[1..][i]) == Skip {
          assert s[1..][i] == s[i + 1];
        }
      }
      RunSkipped(d, s[1..]);
    }
  }

  // ------------------------------------------------------------ round trip

  lemma {:induction false} RunAppend(d: Decoder, a: string, b: string)
    requires d.value >= 0
    ensures Run(d, a + b) == match Run(d, a) case None => None case Some(d') => Run(d', b)
    decreases |a|
  {
    if |a| == 0 {
      assert a + b == b;
    } else {
      assert (a + b)[0] == a[0];
      assert (a + b)[1..] == a[1..] + b;
      match Step(d, a[0])
      case None =>
      case Some(d') => RunAppend(d', a[1..], b);
    }
  }

  /** Line breaks are invisible to the decoder. */
  lemma {:induction false} RunWrap(d: Decoder, s: string)
    requires d.value >= 0
    ensures Run(d, Wrap(s)) == Run(d, s)
    decreases |s|
  {
    if |s| == 0 {
    } else if |s| <= LineLength {
      RunAppend(d, s, "\n");
      match Run(d, s)
      case None =>
      case Some(d') => assert Run(d', "\n") == Some(d');
    } else {
      var head, tail := s[..LineLength], s[LineLength..];
      assert s == head + tail;
      RunAppend(d, head + "\n", Wrap(tail));
      RunAppend(d, head, "\n");
      RunAppend(d, head, tail);
      match Run(d, head)
      case None =>
      case Some(d') =>
        assert Run(d', "\n") == Some(d');
        RunWrap(d', tail);
    }
  }

  /** The four sextets of a group, read back in order, rebuild its 24 bits. */
  lemma GroupValue(x0: int, x1: int, x2: int)
    requires 0 <= x0 < 256 && 0 <= x1 < 256 && 0 <= x2 < 256
    ensures ((x0 / 4 * 64 + ((x0 % 4) * 16 + x1 / 16)) * 64 + ((x1 % 16) * 4 + x2 / 64)) * 64 + x2 % 64
         == x0 * 65536 + x1 * 256 + x2
  {
    var v1 := x0 / 4 * 64 + ((x0 % 4) * 16 + x1 / 16);
    assert v1 == x0 * 16 + x1 / 16;
    var v2 := v1 * 64 + ((x1 % 16) * 4 + x2 / 64);
    assert v2 == x0 * 1024 + x1 * 4 + x2 / 64;
  }

  /** The three sextets of a two-byte tail rebuild its 18 bits, from which
      the decoder extracts both bytes. */
  lemma PairValue(x0: int, x1: int)
    requires 0 <= x0 < 256 && 0 <= x1 < 256
    ensures (x0 / 4 * 64 + ((x0 % 4) * 16 + x1 / 16)) * 64 + (x1 % 16) * 4 == x0 * 1024 + x1 * 4
    ensures (x0 * 1024 + x1 * 4) / 1024 == x0
    ensures ((x0 * 1024 + x1 * 4) / 4) % 256 == x1
  {
    var v1 := x0 / 4 * 64 + ((x0 % 4) * 16 + x1 / 16);
    assert v1 == x0 * 16 + x1 / 16;
    assert (x0 * 1024 + x1 * 4) / 4 == x0 * 256 + x1;
  }

  /** The three bytes of a 24-bit group, as the decoder extracts them. */
  lemma GroupBytes(x0: int, x1: int, x2: int)
    requires 0 <= x0 < 256 && 0 <= x1 < 256 && 0 <= x2 < 256
    ensures (x0 * 65536 + x1 * 256 + x2) / 65536 == x0
    ensures ((x0 * 65536 + x1 * 256 + x2) / 256) % 256 == x1
    ensures (x0 * 65536 + x1 * 256 + x2) % 256 == x2
  {
    var v := x0 * 65536 + x1 * 256 + x2;
    assert v / 256 == x0 * 256 + x1;
  }

  /** An alphabet character in the first three positions of a group is
      shifted into the decoder's value. */
  lemma StepSextet(d: Decoder, v: Sextet)
    requires d.value >= 0 && d.state < 3
    ensures Step(d, CharOf(v)) == Some(Decoder(d.state + 1, if d.state == 0 then v else d.value * 64 + v, d.output))
  {
    ClassifyCharOf(v);
  }

  /** The fourth alphabet character of a group completes the 24 bits, and
      the decoder emits them as three bytes. */
  lemma StepGroupEnd(d: Decoder, v: Sextet)
    requires d.value >= 0 && d.state == 3
    ensures var w := d.value * 64 + v;
            Step(d, CharOf(v)) == Some(Decoder(0, w, d.output + Emit3(w)))
  {
    ClassifyCharOf(v);
  }

  /** Running over a character and then the rest is one step, then a run. */
  lemma RunCons(d: Decoder, c: char, s: string)
    requires d.value >= 0 && Step(d, c).Some?
    ensures Run(d, [c] + s) == Run(Step(d, c).value, s)
  {
    assert ([c] + s)[1..] == s;
  }

  /** Running over four characters, each stepping to the next decoder. */
  lemma RunFour(d0: Decoder, s: string, d1: Decoder, d2: Decoder, d3: Decoder, d4: Decoder)
    requires |s| == 4 && d0.value >= 0
    requires Step(d0, s[0]) == Some(d1) && Step(d1, s[1]) == Some(d2)
    requires Step(d2, s[2]) == Some(d3) && Step(d3, s[3]) == Some(d4)
    ensures Run(d0, s) == Some(d4)
  {
    assert s == [s[0]] + ([s[1]] + ([s[2]] + ([s[3]] + [])));
    RunCons(d0, s[0], [s[1]] + ([s[2]] + ([s[3]] + [])));
    RunCons(d1, s[1], [s[2]] + ([s[3]] + []));
    RunCons(d2, s[2], [s[3]] + []);
    RunCons(d3, s[3], []);
  }

  /** Four alphabet characters make one complete group of three bytes. */
  lemma RunQuad(d: Decoder, s0: Sextet, s1: Sextet, s2: Sextet, s3: Sextet)
    requires d.value >= 0 && d.state == 0
    ensures var w := ((s0 * 64 + s1) * 64 + s2) * 64 + s3;
            Run(d, [CharOf(s0), CharOf(s1), CharOf(s2), CharOf(s3)])
            == Some(Decoder(0, w, d.output + Emit3(w)))
  {
    var w := ((s0 * 64 + s1) * 64 + s2) * 64 + s3;
    var d1 := Decoder(1, s0, d.output);
    var d2 := Decoder(2, s0 * 64 + s1, d.output);
    var d3 := Decoder(3, (s0 * 64 + s1) * 64 + s2, d.output);
    var s := [CharOf(s0), CharOf(s1), CharOf(s2), CharOf(s3)];
    StepSextet(d, s0);
    StepSextet(d1, s1);
    StepSextet(d2, s2);
    StepGroupEnd(d3, s3);
    assert Step(d, s[0]) == Some(d1) && Step(d1, s[1]) == Some(d2);
    assert Step(d2, s[2]) == Some(d3) && Step(d3, s[3]) == Some(Decoder(0, w, d.output + Emit3(w)));
    RunFour(d, s, d1, d2, d3, Decoder(0, w, d.output + Emit3(w)));
  }

  /** Two alphabet characters and `==` leave one byte and a finished padding. */
  lemma RunPairPad(d: Decoder, s0: Sextet, s1: Sextet)
    requires d.value >= 0 && d.state == 0
    ensures var w := s0 * 64 + s1;
            Run(d, [CharOf(s0), CharOf(s1), '=', '=']) == Some(Decoder(5, w, d.output + Emit1(w)))
  {
    var w := s0 * 64 + s1;
    var d1 := Decoder(1, s0, d.output);
    var d2 := Decoder(2, w, d.output);
    var d3 := Decoder(4, w, d.output + Emit1(w));
    StepSextet(d, s0);
    StepSextet(d1, s1);
    assert Step(d2, '=') == Some(d3);
    assert Step(d3, '=') == Some(d3.(state := 5));
    RunFour(d, [CharOf(s0), CharOf(s1), '=', '='], d1, d2, d3, d3.(state := 5));
  }

  /** Three alphabet characters and `=` leave two bytes and a finished padding. */
  lemma RunTriplePad(d: Decoder, s0: Sextet, s1: Sextet, s2: Sextet)
    requires d.value >= 0 && d.state == 0
    ensures var w := (s0 * 64 + s1) * 64 + s2;
            Run(d, [CharOf(s0), CharOf(s1), CharOf(s2), '='])
            == Some(Decoder(5, w, d.output + Emit2(w)))
  {
    var w := (s0 * 64 + s1) * 64 + s2;
    var d1 := Decoder(1, s0, d.output);
    var d2 := Decoder(2, s0 * 64 + s1, d.output);
    var d3 := Decoder(3, w, d.output);
    StepSextet(d, s0);
    StepSextet(d1, s1);
    StepSextet(d2, s2);
    assert Step(d3, '=') == Some(Decoder(5, w, d.output + Emit2(w)));
    RunFour(d, [CharOf(s0), CharOf(s1), CharOf(s2), '='], d1, d2, d3,
            Decoder(5, w, d.output + Emit2(w)));
  }

  /** The two sextets of a lone final byte rebuild it, shifted by four bits. */
  lemma SingleValue(x0: int)
    requires 0 <= x0 < 256
    ensures (x0 / 4 * 64 + (x0 % 4) * 16) / 16 == x0
    ensures 0 <= (x0 % 4) * 16 < 64
  {
    assert x0 / 4 * 64 + (x0 % 4) * 16 == 16 * x0;
  }

  /** The sextets of a group, read back, give its three bytes. */
  lemma GroupSextets(b0: byte, b1: byte, b2: byte)
    ensures var x0, x1, x2 := b0 as int, b1 as int, b2 as int;
            var w := ((x0 / 4 * 64 + ((x0 % 4) * 16 + x1 / 16)) * 64 + ((x1 % 16) * 4 + x2 / 64)) * 64 + x2 % 64;
            && w == x0 * 65536 + x1 * 256 + x2
            && Emit3(w) == [b0, b1, b2]
  {
    var x0, x1, x2 := b0 as int, b1 as int, b2 as int;
    GroupValue(x0, x1, x2);
    GroupBytes(x0, x1, x2);
  }

  /** The decoder reads a complete group back into its three bytes. */
  lemma RunGroup(v: int, out: seq<byte>, b0: byte, b1: byte, b2: byte)
    requires v >= 0
    ensures Run(Decoder(0, v, out), EncodeGroup(b0, b1, b2))
         == Some(Decoder(0, b0 as int * 65536 + b1 as int * 256 + b2 as int, out + [b0, b1, b2]))
  {
    var x0, x1, x2 := b0 as int, b1 as int, b2 as int;
    var c0, c1, c2, c3 := x0 / 4, (x0 % 4) * 16 + x1 / 16, (x1 % 16) * 4 + x2 / 64, x2 % 64;
    GroupSextets(b0, b1, b2);
    RunQuad(Decoder(0, v, out), c0, c1, c2, c3);
  }

  /** A final single byte, encoded as two characters and `==`, is read back. */
  lemma RunLastOne(v: int, out: seq<byte>, b0: byte)
    requires v >= 0
    ensures Run(Decoder(0, v, out), EncodeLastOne(b0)).Some?
    ensures Finish(Run(Decoder(0, v, out), EncodeLastOne(b0)).value) == Some(out + [b0])
  {
    var x0 := b0 as int;
    SingleValue(x0);
    RunPairPad(Decoder(0, v, out), x0 / 4, (x0 % 4) * 16);
  }

  /** The sextets of a two-byte tail, read back, give its two bytes. */
  lemma PairSextets(b0: byte, b1: byte)
    ensures var x0, x1 := b0 as int, b1 as int;
            var w := (x0 / 4 * 64 + ((x0 % 4) * 16 + x1 / 16)) * 64 + (x1 % 16) * 4;
            Emit2(w) == [b0, b1]
  {
    PairValue(b0 as int, b1 as int);
  }

  /** Two final bytes, encoded as three characters and `=`, are read back. */
  lemma RunLastTwo(v: int, out: seq<byte>, b0: byte, b1: byte)
    requires v >= 0
    ensures Run(Decoder(0, v, out), EncodeLastTwo(b0, b1)).Some?
    ensures Finish(Run(Decoder(0, v, out), EncodeLastTwo(b0, b1)).value) == Some(out + [b0, b1])
  {
    var x0, x1 := b0 as int, b1 as int;
    var c0, c1, c2 := x0 / 4, (x0 % 4) * 16 + x1 / 16, (x1 % 16) * 4;
    PairSextets(b0, b1);
    RunTriplePad(Decoder(0, v, out), c0, c1, c2);
  }

  /** The decoder reads an unwrapped encoding back into its bytes. */
  lemma {:induction false} RunUnwrapped(v: int, out: seq<byte>, b: seq<byte>)
    requires v >= 0
    ensures Run(Decoder(0, v, out), EncodeUnwrapped(b)).Some?
    ensures Finish(Run(Decoder(0, v, out), EncodeUnwrapped(b)).value) == Some(out + b)
    decreases |b|
  {
    var d := Decoder(0, v, out);
    if |b| == 0 {
      assert out + b == out;
    } else if |b| == 1 {
      RunLastOne(v, out, b[0]);
      assert out + [b[0]] == out + b;
    } else if |b| == 2 {
      RunLastTwo(v, out, b[0], b[1]);
      assert out + [b[0], b[1]] == out + b;
    } else {
      var g := EncodeGroup(b[0], b[1], b[2]);
      var rest := EncodeUnwrapped(b[3..]);
      assert EncodeUnwrapped(b) == g + rest;
      RunAppend(d, g, rest);
      RunGroup(v, out, b[0], b[1], b[2]);
      var v' := b[0] as int * 65536 + b[1] as int * 256 + b[2] as int;
      var out' := out + [b[0], b[1], b[2]];
      assert Run(d, g + rest) == Run(Decoder(0, v', out'), rest);
      RunUnwrapped(v', out', b[3..]);
      assert out' + b[3..] == out + b;
    }
  }

  /** Decoding what `encodeToString` produced gives back the same bytes. */
  lemma DecodeEncode(b: seq<byte>)
    ensures Decode(Encode(b)) == Some(b)
  {
    RunWrap(Start, EncodeUnwrapped(b));
    RunUnwrapped(0, [], b);
    assert [] + b == b;
  }
}
