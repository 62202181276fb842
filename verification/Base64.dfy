/** The base64 coroutines: each block call resumes at the step where the last one
    stopped. Bytes and code characters are 8-bit values. */
module Base64 {
  import opened Options

  type byte = bv8

  const NEWLINE: byte := 10
  const PAD: byte := 61
  const CHARS_PER_LINE := 72

  /** The code character of a 6-bit value, `=` beyond. */
  function EncodeValue(v: byte): byte {
    if v > 63 then PAD
    else if v < 26 then v + 65
    else if v < 52 then v + 71
    else if v < 62 then v - 4
    else if v == 62 then 43
    else 47
  }

  /** The 6-bit value of a code character; other characters have none. */
  function DecodeValue(c: byte): Option<byte> {
    if c == 43 then Some(62)
    else if c == 47 then Some(63)
    else if 48 <= c <= 57 then Some(c + 4)
    else if 65 <= c <= 90 then Some(c - 65)
    else if 97 <= c <= 122 then Some(c - 71)
    else None
  }

  const UPPER := "ABCDEFGHIJKLMNOPQRSTUVWXYZ"
  const LOWER := "abcdefghijklmnopqrstuvwxyz"
  const OTHER := "0123456789+/"

  /** The alphabet of section 4 of RFC 4648. */
  function Alphabet(): (s: string)
    ensures |s| == 64
  {
    UPPER + LOWER + OTHER
  }

  lemma AlphabetInRanges(i: nat)
    requires i < 64
    ensures Alphabet()[i] as int == if i < 26 then i + 65
                                    else if i < 52 then i + 71
                                    else if i < 62 then i - 4
                                    else if i == 62 then 43
                                    else 47
  {
    if i < 26 {
      assert Alphabet()[i] == UPPER[i];
      Upper(i);
    } else if i < 52 {
      assert Alphabet()[i] == LOWER[i - 26];
      Lower(i - 26);
    } else {
      assert Alphabet()[i] == OTHER[i - 52];
      Others(i - 52);
    }
  }

  lemma Upper(i: nat)
    requires i < 26
    ensures UPPER[i] as int == i + 65
  {
  }

  lemma Lower(i: nat)
    requires i < 26
    ensures LOWER[i] as int == i + 97
  {
  }

  lemma Others(i: nat)
    requires i < 12
    ensures OTHER[i] as int == if i < 10 then i + 48 else if i == 10 then 43 else 47
  {
  }

  /** A 6-bit value is encoded as its character of the alphabet, any other as `=`. */
  lemma EncodesByAlphabet(v: byte)
    ensures EncodeValue(v) as int == if v <= 63 then Alphabet()[v as int] as int else '=' as int
  {
    hide Alphabet;
    if v <= 63 {
      AlphabetInRanges(v as int);
    }
  }

  /** A character is decoded to its place in the alphabet, and to nothing elsewhere. */
  lemma DecodesByAlphabet(c: byte, i: nat)
    requires i < 64
    ensures DecodeValue(c).Some? ==> DecodeValue(c).value <= 63
    ensures DecodeValue(c).Some? && DecodeValue(c).value as int == i <==> c as int == Alphabet()[i] as int
  {
    hide Alphabet;
    AlphabetInRanges(i);
  }

  lemma DecodeEncodeValue(v: byte)
    requires v <= 63
    ensures DecodeValue(EncodeValue(v)) == Some(v)
  {
  }

  // -------------------------------------------------------------- the encoder

  datatype EncodeStep = A | B | C

  datatype EncodeState = EncodeState(step: EncodeStep, result: byte, stepcount: nat)

  const ENCODE_INIT := EncodeState(A, 0, 0)

  function EncodeByte(s: EncodeState, b: byte): (EncodeState, seq<byte>) {
    match s.step
    case A => (s.(step := B, result := (b & 0x03) << 4), [EncodeValue((b & 0xfc) >> 2)])
    case B => (s.(step := C, result := (b & 0x0f) << 2), [EncodeValue(s.result | ((b & 0xf0) >> 4))])
    case C =>
      var out := [EncodeValue(s.result | ((b & 0xc0) >> 6)), EncodeValue(b & 0x3f)];
      if s.stepcount + 1 == CHARS_PER_LINE / 4 then (EncodeState(A, b & 0x3f, 0), out + [NEWLINE])
      else (EncodeState(A, b & 0x3f, s.stepcount + 1), out)
  }

  /** The state and the text after a block of bytes. */
  function EncodeBlock(s: EncodeState, p: seq<byte>): (EncodeState, seq<byte>) {
    if p == [] then (s, [])
    else
      var (s1, out) := EncodeBlock(s, p[..|p| - 1]);
      var (s2, last) := EncodeByte(s1, p[|p| - 1]);
      (s2, out + last)
  }

  /** The text that completes the last group. */
  function EncodeBlockEnd(s: EncodeState): seq<byte> {
    match s.step
    case A => [NEWLINE]
    case B => [EncodeValue(s.result), PAD, PAD, NEWLINE]
    case C => [EncodeValue(s.result), PAD, NEWLINE]
  }

  /** Two blocks in a row are one block. */
  lemma {:induction false} EncodeBlockSplits(s: EncodeState, p: seq<byte>, q: seq<byte>)
    ensures var (s1, out1) := EncodeBlock(s, p);
            var (s2, out2) := EncodeBlock(s1, q);
            EncodeBlock(s, p + q) == (s2, out1 + out2)
  {
    hide EncodeByte;
    if q == [] {
      assert p + q == p;
      assert EncodeBlock(s, p).1 + [] == EncodeBlock(s, p).1;
    } else {
      EncodeBlockSplits(s, p, q[..|q| - 1]);
      assert (p + q)[..|p + q| - 1] == p + q[..|q| - 1];
      var (s1, out1) := EncodeBlock(s, p);
      var (s2, out2) := EncodeBlock(s1, q[..|q| - 1]);
      var last := EncodeByte(s2, q[|q| - 1]).1;
      assert out1 + (out2 + last) == out1 + out2 + last;
    }
  }

  // -------------------------------------------------------- the text it writes

  /** Section 4 of RFC 4648: three bytes are a 24-bit group, taken as four 6-bit
      values from the left. */
  function Sextet(b0: byte, b1: byte, b2: byte, i: nat): byte
    requires i < 4
  {
    var group := (b0 as bv24 << 16) | (b1 as bv24 << 8) | b2 as bv24;
    ((group >> (18 - 6 * i)) & 0x3f) as byte
  }

  function Quad(b0: byte, b1: byte, b2: byte): seq<byte> {
    [EncodeValue(Sextet(b0, b1, b2, 0)), EncodeValue(Sextet(b0, b1, b2, 1)),
     EncodeValue(Sextet(b0, b1, b2, 2)), EncodeValue(Sextet(b0, b1, b2, 3))]
  }

  /** The text of RFC 4648, padded to whole groups. */
  function Plain(p: seq<byte>): seq<byte> {
    if |p| == 0 then []
    else if |p| == 1 then Quad(p[0], 0, 0)[..2] + [PAD, PAD]
    else if |p| == 2 then Quad(p[0], p[1], 0)[..3] + [PAD]
    else Quad(p[0], p[1], p[2]) + Plain(p[3..])
  }

  /** That text with a newline after every 18 whole groups and one at the end;
      `k` groups are on the line already. */
  function Lines(p: seq<byte>, k: nat): seq<byte> {
    if |p| < 3 then Plain(p) + [NEWLINE]
    else if k + 1 == 18 then Quad(p[0], p[1], p[2]) + [NEWLINE] + Lines(p[3..], 0)
    else Quad(p[0], p[1], p[2]) + Lines(p[3..], k + 1)
  }

  /** The shifts of the encoder pick the 6-bit values of the group. */
  lemma SextetsAreShifts(b0: byte, b1: byte, b2: byte)
    ensures Sextet(b0, b1, b2, 0) == (b0 & 0xfc) >> 2
    ensures Sextet(b0, b1, b2, 1) == ((b0 & 0x03) << 4) | ((b1 & 0xf0) >> 4)
    ensures Sextet(b0, b1, b2, 2) == ((b1 & 0x0f) << 2) | ((b2 & 0xc0) >> 6)
    ensures Sextet(b0, b1, b2, 3) == b2 & 0x3f
  {
  }

  /** The byte at `i`, 0 past the end. */
  function ByteAt(p: seq<byte>, i: nat): byte {
    if i < |p| then p[i] else 0
  }

  lemma {:induction false} PlainLength(p: seq<byte>)
    ensures |Plain(p)| == (|p| + 2) / 3 * 4
    decreases |p|
  {
    hide Quad;
    if |p| >= 3 {
      PlainLength(p[3..]);
      QuadAt(p[0], p[1], p[2], 0);
    } else {
      QuadAt(ByteAt(p, 0), ByteAt(p, 1), 0, 0);
    }
  }

  /** The text from group `g` on is that of the bytes from there on. */
  lemma {:induction false} PlainFrom(p: seq<byte>, g: nat)
    requires 3 * g <= |p|
    ensures 4 * g <= |Plain(p)| && Plain(p)[4 * g..] == Plain(p[3 * g..])
    decreases |p|
  {
    hide Quad;
    if g == 0 {
      assert p[0..] == p && Plain(p)[0..] == Plain(p);
    } else {
      var rest := p[3..];
      PlainFrom(rest, g - 1);
      QuadAt(p[0], p[1], p[2], 0);
      assert rest[3 * (g - 1)..] == p[3 * g..];
      assert Plain(p) == Quad(p[0], p[1], p[2]) + Plain(rest);
      assert Plain(p)[4 * g..] == Plain(rest)[4 * (g - 1)..];
    }
  }

  /** Character `j` of the first group. */
  lemma FirstGroupAt(p: seq<byte>, j: nat)
    requires p != [] && j < 4
    ensures j < |Plain(p)|
    ensures Plain(p)[j] == if 6 * j < 8 * |p|
                           then EncodeValue(Sextet(ByteAt(p, 0), ByteAt(p, 1), ByteAt(p, 2), j))
                           else PAD
  {
    hide EncodeValue, Sextet, Quad;
    var q := Quad(p[0], ByteAt(p, 1), ByteAt(p, 2));
    QuadAt(p[0], ByteAt(p, 1), ByteAt(p, 2), j);
    PaddedAt(q, j);
    if |p| >= 3 {
      assert Plain(p) == q + Plain(p[3..]);
    }
  }

  lemma QuadAt(b0: byte, b1: byte, b2: byte, j: nat)
    requires j < 4
    ensures |Quad(b0, b1, b2)| == 4 && Quad(b0, b1, b2)[j] == EncodeValue(Sextet(b0, b1, b2, j))
  {
    hide EncodeValue, Sextet;
  }

  lemma PaddedAt(q: seq<byte>, j: nat)
    requires |q| == 4 && j < 4
    ensures (q[..3] + [PAD])[j] == if j < 3 then q[j] else PAD
    ensures (q[..2] + [PAD, PAD])[j] == if j < 2 then q[j] else PAD
  {
  }

  /** The text has four characters for every three bytes begun. Character `j` of group
      `g` stands for six bits of the bytes of the group, with zero bits past the end, if
      the six bits begin within the bytes; it is `=` if they do not. */
  lemma PlainAt(p: seq<byte>, g: nat, j: nat)
    requires 3 * g < |p| && j < 4
    ensures |Plain(p)| == (|p| + 2) / 3 * 4 && 4 * g + j < |Plain(p)|
    ensures var i := 3 * g;
            Plain(p)[4 * g + j] == if 8 * i + 6 * j < 8 * |p|
                                   then EncodeValue(Sextet(ByteAt(p, i), ByteAt(p, i + 1), ByteAt(p, i + 2), j))
                                   else PAD
  {
    hide EncodeValue, Sextet, Plain;
    PlainLength(p);
    PlainFrom(p, g);
    FirstGroupAt(p[3 * g..], j);
  }

  lemma OneByte(s: EncodeState, b: byte)
    ensures EncodeBlock(s, [b]) == EncodeByte(s, b)
  {
    assert [b][..0] == [];
    var (s2, last) := EncodeByte(s, b);
    assert [] + last == last;
  }

  lemma ThreeBytes(s: EncodeState, b0: byte, b1: byte, b2: byte)
    ensures var (s1, o1) := EncodeByte(s, b0);
            var (s2, o2) := EncodeByte(s1, b1);
            var (s3, o3) := EncodeByte(s2, b2);
            EncodeBlock(s, [b0, b1, b2]) == (s3, o1 + o2 + o3)
  {
    hide EncodeByte, EncodeBlock;
    TwoBytes(s, b0, b1);
    OneByte(EncodeBlock(s, [b0, b1]).0, b2);
    EncodeBlockSplits(s, [b0, b1], [b2]);
    assert [b0, b1] + [b2] == [b0, b1, b2];
  }

  /** From a group boundary, three bytes write the four characters of their group
      and the newline that is due after the eighteenth. */
  lemma EncodeGroup(s: EncodeState, b0: byte, b1: byte, b2: byte)
    requires s.step == A
    ensures EncodeBlock(s, [b0, b1, b2]) ==
            if s.stepcount + 1 == 18 then (EncodeState(A, b2 & 0x3f, 0), Quad(b0, b1, b2) + [NEWLINE])
            else (EncodeState(A, b2 & 0x3f, s.stepcount + 1), Quad(b0, b1, b2))
  {
    ThreeBytes(s, b0, b1, b2);
    GroupCharacters(s, b0, b1, b2);
    JoinGroup(Quad(b0, b1, b2));
    hide EncodeByte, EncodeBlock, Quad;
  }

  lemma GroupCharacters(s: EncodeState, b0: byte, b1: byte, b2: byte)
    requires s.step == A
    ensures var q := Quad(b0, b1, b2);
            var (s1, o1) := EncodeByte(s, b0);
            var (s2, o2) := EncodeByte(s1, b1);
            var (s3, o3) := EncodeByte(s2, b2);
            var full := s.stepcount + 1 == 18;
            && |q| == 4 && o1 == [q[0]] && o2 == [q[1]] && o3 == [q[2], q[3]] + (if full then [NEWLINE] else [])
            && s3 == EncodeState(A, b2 & 0x3f, if full then 0 else s.stepcount + 1)
  {
    hide Sextet, EncodeValue;
    SextetsAreShifts(b0, b1, b2);
    var q := Quad(b0, b1, b2);
    assert [q[2], q[3]] + [] == [q[2], q[3]];
  }

  lemma JoinGroup(q: seq<byte>)
    requires |q| == 4
    ensures [q[0]] + [q[1]] + ([q[2], q[3]] + [NEWLINE]) == q + [NEWLINE]
    ensures [q[0]] + [q[1]] + ([q[2], q[3]] + []) == q
  {
  }

  /** The text of a message from a group boundary: the blocks and the end. */
  function Message(s: EncodeState, p: seq<byte>): seq<byte> {
    var (s1, out) := EncodeBlock(s, p);
    out + EncodeBlockEnd(s1)
  }

  lemma ShortMessage(s: EncodeState, p: seq<byte>)
    requires s.step == A && |p| < 3
    ensures Message(s, p) == Lines(p, s.stepcount)
  {
    if |p| == 0 {
      NoBytes(s, p);
    } else if |p| == 1 {
      OneByteMessage(s, p);
    } else {
      TwoByteMessage(s, p);
    }
  }

  lemma OneByteMessage(s: EncodeState, p: seq<byte>)
    requires s.step == A && |p| == 1
    ensures Message(s, p) == Plain(p) + [NEWLINE]
  {
    assert p == [p[0]];
    OneByte(s, p[0]);
    OneByteCharacters(s, p[0]);
    PaddedPair(Quad(p[0], 0, 0));
    hide EncodeBlock, EncodeByte, EncodeBlockEnd, Quad;
  }

  lemma PaddedPair(q: seq<byte>)
    requires |q| == 4
    ensures [q[0]] + [q[1], PAD, PAD, NEWLINE] == q[..2] + [PAD, PAD] + [NEWLINE]
  {
  }

  lemma OneByteCharacters(s: EncodeState, b: byte)
    requires s.step == A
    ensures var (q, (s1, out)) := (Quad(b, 0, 0), EncodeByte(s, b));
            |q| == 4 && out == [q[0]] && EncodeBlockEnd(s1) == [q[1], PAD, PAD, NEWLINE]
  {
    hide Sextet, EncodeValue;
    SextetsAreShifts(b, 0, 0);
    PadsWithZero((b & 0x03) << 4);
  }

  lemma TwoByteMessage(s: EncodeState, p: seq<byte>)
    requires s.step == A && |p| == 2
    ensures Message(s, p) == Plain(p) + [NEWLINE]
  {
    assert p == [p[0], p[1]];
    TwoBytes(s, p[0], p[1]);
    TwoByteCharacters(s, p[0], p[1]);
    PaddedTriple(Quad(p[0], p[1], 0));
    hide EncodeBlock, EncodeByte, EncodeBlockEnd, Quad;
  }

  lemma PaddedTriple(q: seq<byte>)
    requires |q| == 4
    ensures [q[0]] + [q[1]] + [q[2], PAD, NEWLINE] == q[..3] + [PAD] + [NEWLINE]
  {
  }

  lemma TwoByteCharacters(s: EncodeState, b0: byte, b1: byte)
    requires s.step == A
    ensures var q := Quad(b0, b1, 0);
            var (s1, o1) := EncodeByte(s, b0);
            var (s2, o2) := EncodeByte(s1, b1);
            |q| == 4 && o1 == [q[0]] && o2 == [q[1]] && EncodeBlockEnd(s2) == [q[2], PAD, NEWLINE]
  {
    hide Sextet, EncodeValue;
    SextetsAreShifts(b0, b1, 0);
    PadsWithZero((b1 & 0x0f) << 2);
  }

  lemma TwoBytes(s: EncodeState, b0: byte, b1: byte)
    ensures var (s1, o1) := EncodeByte(s, b0);
            var (s2, o2) := EncodeByte(s1, b1);
            EncodeBlock(s, [b0, b1]) == (s2, o1 + o2)
  {
    hide EncodeByte, EncodeBlock;
    OneByte(s, b0);
    OneByte(EncodeByte(s, b0).0, b1);
    EncodeBlockSplits(s, [b0], [b1]);
    assert [b0] + [b1] == [b0, b1];
  }

  lemma NoBytes(s: EncodeState, p: seq<byte>)
    requires |p| == 0
    ensures EncodeBlock(s, p) == (s, [])
  {
  }

  lemma PadsWithZero(b: byte)
    ensures b | ((0 & 0xf0) >> 4) == b && b | ((0 & 0xc0) >> 6) == b
  {
  }

  /** What the encoder writes is the text of RFC 4648 in lines. */
  lemma {:induction false} EncoderWritesLines(s: EncodeState, p: seq<byte>)
    requires s.step == A && s.stepcount < 18
    ensures Message(s, p) == Lines(p, s.stepcount)
    decreases |p|
  {
    hide Quad, EncodeBlock, EncodeBlockEnd, Plain;
    if |p| < 3 {
      ShortMessage(s, p);
    } else {
      var group := [p[0], p[1], p[2]];
      assert p == group + p[3..];
      EncodeGroup(s, p[0], p[1], p[2]);
      EncodeBlockSplits(s, group, p[3..]);
      EncoderWritesLines(EncodeBlock(s, group).0, p[3..]);
    }
  }

  // -------------------------------------------------------- where lines break

  lemma NoNewlineInside(p: seq<byte>)
    ensures forall v :: EncodeValue(v) != NEWLINE
    ensures |p| < 3 ==> |Plain(p)| == (if p == [] then 0 else 4) && NEWLINE !in Plain(p)
  {
    NoValueIsNewline();
    hide EncodeValue, Sextet;
    if |p| == 1 {
      assert Plain(p) == Quad(p[0], 0, 0)[..2] + [PAD, PAD];
    } else if |p| == 2 {
      assert Plain(p) == Quad(p[0], p[1], 0)[..3] + [PAD];
    }
  }

  lemma NoValueIsNewline()
    ensures forall v :: EncodeValue(v) != NEWLINE
  {
  }

  /** With `on` characters on the line already, newlines stand exactly after every
      72 code characters and at the end. */
  predicate Breaks(w: seq<byte>, on: nat) {
    |w| > 0 && forall i | 0 <= i < |w| :: w[i] == NEWLINE <==> (i + on) % 73 == 72 || i == |w| - 1
  }

  lemma PrependQuad(quad: seq<byte>, rest: seq<byte>, on: nat)
    requires |quad| == 4 && NEWLINE !in quad && on <= 64 && Breaks(rest, on + 4)
    ensures Breaks(quad + rest, on)
  {
    var w := quad + rest;
    forall i | 0 <= i < |w|
      ensures w[i] == NEWLINE <==> (i + on) % 73 == 72 || i == |w| - 1
    {
      if i < 4 {
        assert w[i] == quad[i];
      } else {
        assert w[i] == rest[i - 4];
      }
    }
  }

  lemma PrependLineEnd(quad: seq<byte>, rest: seq<byte>)
    requires |quad| == 4 && NEWLINE !in quad && Breaks(rest, 0)
    ensures Breaks(quad + [NEWLINE] + rest, 68)
  {
    var w := quad + [NEWLINE] + rest;
    forall i | 0 <= i < |w|
      ensures w[i] == NEWLINE <==> (i + 68) % 73 == 72 || i == |w| - 1
    {
      if i < 4 {
        assert w[i] == quad[i];
      } else if i > 4 {
        assert w[i] == rest[i - 5];
      }
    }
  }

  /** The encoder's text breaks after every 72 code characters. */
  lemma {:induction false} LinesBreak(p: seq<byte>, k: nat)
    requires k < 18
    ensures Breaks(Lines(p, k), 4 * k)
    decreases |p|
  {
    hide EncodeValue, Sextet, Breaks;
    NoNewlineInside(p);
    if |p| < 3 {
      LastLineBreaks(p, k);
    } else {
      var quad := Quad(p[0], p[1], p[2]);
      if k + 1 == 18 {
        LinesBreak(p[3..], 0);
        PrependLineEnd(quad, Lines(p[3..], 0));
      } else {
        LinesBreak(p[3..], k + 1);
        PrependQuad(quad, Lines(p[3..], k + 1), 4 * k);
      }
    }
  }

  lemma LastLineBreaks(p: seq<byte>, k: nat)
    requires k < 18 && |p| < 3
    ensures Breaks(Plain(p) + [NEWLINE], 4 * k)
  {
    hide EncodeValue, Sextet, Plain;
    NoNewlineInside(p);
    var w := Plain(p) + [NEWLINE];
    assert forall i | 0 <= i < |w| - 1 :: w[i] in Plain(p);
  }

  function Strip(w: seq<byte>): seq<byte> {
    if w == [] then []
    else if w[0] == NEWLINE then Strip(w[1..])
    else [w[0]] + Strip(w[1..])
  }

  lemma {:induction false} StripPlain(a: seq<byte>, b: seq<byte>)
    requires NEWLINE !in a
    ensures Strip(a + b) == a + Strip(b)
  {
    if a == [] {
      assert a + b == b;
    } else {
      StripPlain(a[1..], b);
      assert (a + b)[1..] == a[1..] + b;
    }
  }

  /** Without its newlines, the text is that of RFC 4648. */
  lemma {:induction false} StrippedLines(p: seq<byte>, k: nat)
    ensures Strip(Lines(p, k)) == Plain(p)
    decreases |p|
  {
    hide EncodeValue, Sextet;
    NoNewlineInside(p);
    if |p| < 3 {
      StripPlain(Plain(p), [NEWLINE]);
      assert Plain(p) + [] == Plain(p);
    } else {
      var quad := Quad(p[0], p[1], p[2]);
      var k' := if k + 1 == 18 then 0 else k + 1;
      StrippedLines(p[3..], k');
      StripPlain(quad, Lines(p[3..], k'));
      StripPlain(quad, [NEWLINE] + Lines(p[3..], k'));
      assert ([NEWLINE] + Lines(p[3..], k'))[1..] == Lines(p[3..], k');
      assert quad + [NEWLINE] + Lines(p[3..], k') == quad + ([NEWLINE] + Lines(p[3..], k'));
    }
  }

  // -------------------------------------------------------------- the decoder

  datatype DecodeStep = Fst | Snd | Trd | Fth

  /** `plain` is the byte begun but not finished; it means nothing at `Fst`. */
  datatype DecodeState = DecodeState(step: DecodeStep, plain: byte)

  const DECODE_INIT := DecodeState(Fst, 0)

  /** One code character: characters without a value change nothing. */
  function DecodeChar(s: DecodeState, c: byte): (DecodeState, seq<byte>) {
    match DecodeValue(c)
    case None => (s, [])
    case Some(fragment) =>
      match s.step
      case Fst => (DecodeState(Snd, (fragment & 0x3f) << 2), [])
      case Snd => (DecodeState(Trd, (fragment & 0x0f) << 4), [s.plain | ((fragment & 0x30) >> 4)])
      case Trd => (DecodeState(Fth, (fragment & 0x03) << 6), [s.plain | ((fragment & 0x3c) >> 2)])
      case Fth => (DecodeState(Fst, 0), [s.plain | (fragment & 0x3f)])
  }

  function DecodeBlock(s: DecodeState, code: seq<byte>): (DecodeState, seq<byte>) {
    if code == [] then (s, [])
    else
      var (s1, out) := DecodeBlock(s, code[..|code| - 1]);
      var (s2, last) := DecodeChar(s1, code[|code| - 1]);
      (s2, out + last)
  }

  /** Two blocks in a row are one block. */
  lemma {:induction false} DecodeBlockSplits(s: DecodeState, p: seq<byte>, q: seq<byte>)
    ensures var (s1, out1) := DecodeBlock(s, p);
            var (s2, out2) := DecodeBlock(s1, q);
            DecodeBlock(s, p + q) == (s2, out1 + out2)
  {
    if q == [] {
      assert p + q == p;
      assert DecodeBlock(s, p).1 + [] == DecodeBlock(s, p).1;
    } else {
      DecodeBlockSplits(s, p, q[..|q| - 1]);
      assert (p + q)[..|p + q| - 1] == p + q[..|q| - 1];
      var (s1, out1) := DecodeBlock(s, p);
      var (s2, out2) := DecodeBlock(s1, q[..|q| - 1]);
      var last := DecodeChar(s2, q[|q| - 1]).1;
      assert out1 + (out2 + last) == out1 + out2 + last;
    }
  }

  /** Section 6.8 of RFC 2045: characters outside the alphabet are ignored. */
  lemma {:induction false} IgnoresOthers(s: DecodeState, code: seq<byte>)
    requires forall c | c in code :: DecodeValue(c) == None
    ensures DecodeBlock(s, code) == (s, [])
  {
    if code != [] {
      assert forall c | c in code[..|code| - 1] :: c in code;
      IgnoresOthers(s, code[..|code| - 1]);
      assert DecodeBlock(s, code[..|code| - 1]).1 + [] == [];
      assert code[|code| - 1] in code;
    }
  }

  lemma OneChar(s: DecodeState, c: byte)
    ensures DecodeBlock(s, [c]) == DecodeChar(s, c)
  {
    assert [c][..0] == [];
    var last := DecodeChar(s, c).1;
    assert [] + last == last;
  }

  lemma TwoChars(s: DecodeState, c0: byte, c1: byte)
    ensures var (s1, o1) := DecodeChar(s, c0);
            var (s2, o2) := DecodeChar(s1, c1);
            DecodeBlock(s, [c0, c1]) == (s2, o1 + o2)
  {
    hide DecodeChar, DecodeBlock;
    OneChar(s, c0);
    OneChar(DecodeChar(s, c0).0, c1);
    DecodeBlockSplits(s, [c0], [c1]);
    assert [c0] + [c1] == [c0, c1];
  }

  lemma ThreeChars(s: DecodeState, c0: byte, c1: byte, c2: byte)
    ensures var (s1, o1) := DecodeBlock(s, [c0, c1]);
            var (s2, o2) := DecodeChar(s1, c2);
            DecodeBlock(s, [c0, c1, c2]) == (s2, o1 + o2)
  {
    hide DecodeChar, DecodeBlock;
    OneChar(DecodeBlock(s, [c0, c1]).0, c2);
    DecodeBlockSplits(s, [c0, c1], [c2]);
    assert [c0, c1] + [c2] == [c0, c1, c2];
  }

  lemma FourChars(s: DecodeState, c0: byte, c1: byte, c2: byte, c3: byte)
    ensures var (s1, o1) := DecodeBlock(s, [c0, c1, c2]);
            var (s2, o2) := DecodeChar(s1, c3);
            DecodeBlock(s, [c0, c1, c2, c3]) == (s2, o1 + o2)
  {
    hide DecodeChar, DecodeBlock;
    OneChar(DecodeBlock(s, [c0, c1, c2]).0, c3);
    DecodeBlockSplits(s, [c0, c1, c2], [c3]);
    assert [c0, c1, c2] + [c3] == [c0, c1, c2, c3];
  }

  /** The 6-bit values of a group put its bytes together again. */
  lemma BytesFromSextets(b0: byte, b1: byte, b2: byte)
    ensures forall i | 0 <= i < 4 :: Sextet(b0, b1, b2, i) <= 63
    ensures ((Sextet(b0, b1, b2, 0) & 0x3f) << 2) | ((Sextet(b0, b1, b2, 1) & 0x30) >> 4) == b0
    ensures ((Sextet(b0, b1, b2, 1) & 0x0f) << 4) | ((Sextet(b0, b1, b2, 2) & 0x3c) >> 2) == b1
    ensures ((Sextet(b0, b1, b2, 2) & 0x03) << 6) | (Sextet(b0, b1, b2, 3) & 0x3f) == b2
  {
    SextetsAreShifts(b0, b1, b2);
  }

  /** The code characters have these 6-bit values. */
  predicate Values(c: seq<byte>, v: seq<byte>) {
    |c| == 4 && |v| == 4 && forall i | 0 <= i < 4 :: DecodeValue(c[i]) == Some(v[i])
  }

  lemma DecodeTwo(s: DecodeState, c: seq<byte>, v: seq<byte>, b0: byte)
    requires s.step == Fst && Values(c, v)
    requires ((v[0] & 0x3f) << 2) | ((v[1] & 0x30) >> 4) == b0
    ensures DecodeBlock(s, c[..2]) == (DecodeState(Trd, (v[1] & 0x0f) << 4), [b0])
  {
    hide DecodeValue, DecodeBlock;
    assert c[..2] == [c[0], c[1]];
    TwoChars(s, c[0], c[1]);
    assert [] + [b0] == [b0];
  }

  lemma DecodeThree(s: DecodeState, c: seq<byte>, v: seq<byte>, b0: byte, b1: byte)
    requires Values(c, v)
    requires DecodeBlock(s, c[..2]) == (DecodeState(Trd, (v[1] & 0x0f) << 4), [b0])
    requires ((v[1] & 0x0f) << 4) | ((v[2] & 0x3c) >> 2) == b1
    ensures DecodeBlock(s, c[..3]) == (DecodeState(Fth, (v[2] & 0x03) << 6), [b0, b1])
  {
    hide DecodeValue, DecodeBlock;
    assert c[..2] == [c[0], c[1]] && c[..3] == [c[0], c[1], c[2]];
    ThreeChars(s, c[0], c[1], c[2]);
    assert [b0] + [b1] == [b0, b1];
  }

  lemma DecodeFour(s: DecodeState, c: seq<byte>, v: seq<byte>, b0: byte, b1: byte, b2: byte)
    requires Values(c, v)
    requires DecodeBlock(s, c[..3]) == (DecodeState(Fth, (v[2] & 0x03) << 6), [b0, b1])
    requires ((v[2] & 0x03) << 6) | (v[3] & 0x3f) == b2
    ensures DecodeBlock(s, c) == (DecodeState(Fst, 0), [b0, b1, b2])
  {
    hide DecodeValue, DecodeBlock;
    assert c[..3] == [c[0], c[1], c[2]] && c == [c[0], c[1], c[2], c[3]];
    FourChars(s, c[0], c[1], c[2], c[3]);
    assert [b0, b1] + [b2] == [b0, b1, b2];
  }

  lemma DecodeQuad(s: DecodeState, b0: byte, b1: byte, b2: byte)
    requires s.step == Fst
    ensures DecodeBlock(s, Quad(b0, b1, b2)) == (DecodeState(Fst, 0), [b0, b1, b2])
    ensures DecodeBlock(s, Quad(b0, b1, b2)[..3]).1 == [b0, b1]
    ensures DecodeBlock(s, Quad(b0, b1, b2)[..2]).1 == [b0]
  {
    hide Sextet, EncodeValue, DecodeValue, DecodeBlock;
    BytesFromSextets(b0, b1, b2);
    var v := [Sextet(b0, b1, b2, 0), Sextet(b0, b1, b2, 1), Sextet(b0, b1, b2, 2), Sextet(b0, b1, b2, 3)];
    forall i | 0 <= i < 4
      ensures DecodeValue(Quad(b0, b1, b2)[i]) == Some(v[i])
    {
      DecodeEncodeValue(v[i]);
    }
    var q := Quad(b0, b1, b2);
    DecodeTwo(s, q, v, b0);
    DecodeThree(s, q, v, b0, b1);
    DecodeFour(s, q, v, b0, b1, b2);
  }

  lemma PaddingIgnored(s: DecodeState)
    ensures DecodeBlock(s, [PAD, PAD, NEWLINE]) == (s, [])
    ensures DecodeBlock(s, [PAD, NEWLINE]) == (s, [])
    ensures DecodeBlock(s, [NEWLINE]) == (s, [])
  {
    IgnoresOthers(s, [PAD, PAD, NEWLINE]);
    IgnoresOthers(s, [PAD, NEWLINE]);
    IgnoresOthers(s, [NEWLINE]);
  }

  lemma DecodeTail(s: DecodeState, p: seq<byte>)
    requires s.step == Fst && |p| < 3
    ensures DecodeBlock(s, Plain(p) + [NEWLINE]).1 == p
  {
    hide Sextet, EncodeValue, DecodeValue, DecodeBlock, DecodeChar;
    if |p| == 0 {
      PaddingIgnored(s);
      assert Plain(p) + [NEWLINE] == [NEWLINE];
    } else {
      var q := if |p| == 1 then Quad(p[0], 0, 0)[..2] else Quad(p[0], p[1], 0)[..3];
      var pad := if |p| == 1 then [PAD, PAD, NEWLINE] else [PAD, NEWLINE];
      assert Plain(p) + [NEWLINE] == q + pad;
      DecodeQuad(s, p[0], if |p| == 1 then 0 else p[1], 0);
      PaddingIgnored(DecodeBlock(s, q).0);
      DecodeBlockSplits(s, q, pad);
      assert p == if |p| == 1 then [p[0]] else [p[0], p[1]];
    }
  }

  /** Decoding the text of a message gives the message. */
  lemma {:induction false} DecodeLines(s: DecodeState, p: seq<byte>, k: nat)
    requires s.step == Fst
    ensures DecodeBlock(s, Lines(p, k)).1 == p
    decreases |p|
  {
    hide Sextet, EncodeValue, DecodeValue, DecodeBlock, DecodeChar, Quad;
    if |p| < 3 {
      DecodeTail(s, p);
    } else {
      var quad, s1 := Quad(p[0], p[1], p[2]), DecodeState(Fst, 0);
      var k' := if k + 1 == 18 then 0 else k + 1;
      var rest := Lines(p[3..], k');
      DecodeQuad(s, p[0], p[1], p[2]);
      DecodeLines(s1, p[3..], k');
      PaddingIgnored(s1);
      DecodeBlockSplits(s, quad, [NEWLINE]);
      DecodeBlockSplits(s, quad + [NEWLINE], rest);
      DecodeBlockSplits(s, quad, rest);
      assert p == [p[0], p[1], p[2]] + p[3..];
    }
  }

  // -------------------------------------------------------- cuts into blocks

  function Flatten(blocks: seq<seq<byte>>): seq<byte> {
    if blocks == [] then [] else blocks[0] + Flatten(blocks[1..])
  }

  /** Consecutive calls of the block encoder, then the block end. */
  function EncodeCalls(s: EncodeState, blocks: seq<seq<byte>>): seq<byte>
    decreases |blocks|
  {
    if blocks == [] then EncodeBlockEnd(s)
    else
      var (s1, out) := EncodeBlock(s, blocks[0]);
      out + EncodeCalls(s1, blocks[1..])
  }

  function DecodeCalls(s: DecodeState, blocks: seq<seq<byte>>): seq<byte>
    decreases |blocks|
  {
    if blocks == [] then []
    else
      var (s1, out) := DecodeBlock(s, blocks[0]);
      out + DecodeCalls(s1, blocks[1..])
  }

  lemma {:induction false} EncodeCutsAnywhere(s: EncodeState, blocks: seq<seq<byte>>)
    ensures EncodeCalls(s, blocks) == Message(s, Flatten(blocks))
    decreases |blocks|
  {
    hide EncodeBlock;
    if blocks == [] {
      NoBytes(s, Flatten(blocks));
    } else {
      var (s1, out) := EncodeBlock(s, blocks[0]);
      EncodeCutsAnywhere(s1, blocks[1..]);
      EncodeBlockSplits(s, blocks[0], Flatten(blocks[1..]));
      var (s2, out2) := EncodeBlock(s1, Flatten(blocks[1..]));
      assert out + (out2 + EncodeBlockEnd(s2)) == out + out2 + EncodeBlockEnd(s2);
    }
  }

  lemma {:induction false} DecodeCutsAnywhere(s: DecodeState, blocks: seq<seq<byte>>)
    ensures DecodeCalls(s, blocks) == DecodeBlock(s, Flatten(blocks)).1
    decreases |blocks|
  {
    hide DecodeChar;
    if blocks != [] {
      var s1 := DecodeBlock(s, blocks[0]).0;
      DecodeCutsAnywhere(s1, blocks[1..]);
      DecodeBlockSplits(s, blocks[0], Flatten(blocks[1..]));
    }
  }

  /** However the bytes are cut into encoder blocks and the text into decoder
      blocks, the decoder gives the bytes back. */
  lemma RoundTrip(plain: seq<seq<byte>>, code: seq<seq<byte>>)
    requires Flatten(code) == EncodeCalls(ENCODE_INIT, plain)
    ensures DecodeCalls(DECODE_INIT, code) == Flatten(plain)
  {
    hide DecodeBlock, EncodeBlock, Lines, Message, EncodeCalls, DecodeCalls;
    EncodeCutsAnywhere(ENCODE_INIT, plain);
    EncoderWritesLines(ENCODE_INIT, Flatten(plain));
    DecodeCutsAnywhere(DECODE_INIT, code);
    DecodeLines(DECODE_INIT, Flatten(plain), 0);
  }

  /** However the bytes are cut into blocks, the text is that of RFC 4648 with a
      newline after every 72 code characters and at the end. */
  lemma EncodedText(plain: seq<seq<byte>>)
    ensures var text := EncodeCalls(ENCODE_INIT, plain);
            Breaks(text, 0) && Strip(text) == Plain(Flatten(plain))
  {
    hide EncodeBlock, Lines, Message, EncodeCalls, Breaks, Strip, Plain;
    EncodeCutsAnywhere(ENCODE_INIT, plain);
    EncoderWritesLines(ENCODE_INIT, Flatten(plain));
    LinesBreak(Flatten(plain), 0);
    StrippedLines(Flatten(plain), 0);
  }

  // ------------------------------------------------------------- buffer sizes

  function Offset(step: EncodeStep): nat {
    match step case A => 0 case B => 1 case C => 2
  }

  lemma ByteLength(s: EncodeState, b: byte)
    requires s.stepcount < 18
    ensures var (s1, out) := EncodeByte(s, b);
            var ends := s.step == C;
            && |out| == 1 + (if ends then 1 else 0) + (if ends && s.stepcount == 17 then 1 else 0)
            && s1.stepcount == (if ends then if s.stepcount == 17 then 0 else s.stepcount + 1 else s.stepcount)
            && Offset(s1.step) == if ends then 0 else Offset(s.step) + 1
  {
  }

  /** The length of what a block writes: a character per byte, one more per
      group ended, and a newline per line ended. */
  lemma {:induction false} BlockLength(s: EncodeState, p: seq<byte>)
    requires s.stepcount < 18
    ensures var (s1, out) := EncodeBlock(s, p);
            var groups := (Offset(s.step) + |p|) / 3;
            && |out| == |p| + groups + (s.stepcount + groups) / 18
            && s1.stepcount == (s.stepcount + groups) % 18
            && Offset(s1.step) == (Offset(s.step) + |p|) % 3
  {
    hide EncodeByte;
    if p != [] {
      var q := p[..|p| - 1];
      BlockLength(s, q);
      ByteLength(EncodeBlock(s, q).0, p[|p| - 1]);
      CountUp(Offset(s.step) + |q|, s.stepcount);
    }
  }

  lemma CountUp(n: nat, k: nat)
    ensures (n + 1) / 3 == n / 3 + (if n % 3 == 2 then 1 else 0) && (n + 1) % 3 == if n % 3 == 2 then 0 else n % 3 + 1
    ensures var l := k + n / 3;
            && (l + 1) / 18 == l / 18 + (if l % 18 == 17 then 1 else 0)
            && (l + 1) % 18 == if l % 18 == 17 then 0 else l % 18 + 1
  {
  }

  /** A buffer of `2n` characters holds every block of at most `n` bytes from any
      reachable state, and the block end, exactly when `n` is at least 2. */
  lemma BufferFits(n: nat)
    ensures n >= 2 <==>
            && (forall s: EncodeState, p: seq<byte> | s.stepcount < 18 && |p| <= n :: |EncodeBlock(s, p).1| <= 2 * n)
            && (forall s :: |EncodeBlockEnd(s)| <= 2 * n)
  {
    hide EncodeByte, EncodeBlock;
    if n >= 2 {
      forall s: EncodeState, p: seq<byte> | s.stepcount < 18 && |p| <= n
        ensures |EncodeBlock(s, p).1| <= 2 * n
      {
        BlockLength(s, p);
      }
    } else {
      assert |EncodeBlockEnd(EncodeState(B, 0, 0))| == 4;
    }
  }

  /** The bits of the message a decoder step has read, in units of 6. */
  function Read(step: DecodeStep): nat {
    match step case Fst => 0 case Snd => 1 case Trd => 2 case Fth => 3
  }

  /** The number of code characters in a text. */
  function Letters(code: seq<byte>): (n: nat)
    ensures n <= |code|
  {
    if code == [] then 0
    else Letters(code[..|code| - 1]) + if DecodeValue(code[|code| - 1]).Some? then 1 else 0
  }

  /** The length of what a block decodes to: a byte per code character, but none for
      the first of each group. */
  lemma {:induction false} DecodedLength(s: DecodeState, code: seq<byte>)
    ensures var (s1, out) := DecodeBlock(s, code);
            var read := Read(s.step) + Letters(code);
            |out| + (read + 3) / 4 == Letters(code) + (Read(s.step) + 3) / 4 && Read(s1.step) == read % 4
  {
    hide DecodeValue, DecodeChar;
    if code != [] {
      var before, c := code[..|code| - 1], code[|code| - 1];
      DecodedLength(s, before);
      CharLength(DecodeBlock(s, before).0, c);
      NextQuarter(Read(s.step) + Letters(before));
    }
  }

  lemma NextQuarter(n: nat)
    ensures (n + 4) / 4 == (n + 3) / 4 + (if n % 4 == 0 then 1 else 0)
    ensures (n + 1) % 4 == (n % 4 + 1) % 4
  {
  }

  lemma CharLength(s: DecodeState, c: byte)
    ensures var (s1, out) := DecodeChar(s, c);
            if DecodeValue(c).None? then s1 == s && out == []
            else |out| == (if s.step == Fst then 0 else 1) && Read(s1.step) == (Read(s.step) + 1) % 4
  {
    hide DecodeValue;
  }

  /** No block decodes to more bytes than it has characters. */
  lemma DecodedFits(s: DecodeState, code: seq<byte>)
    ensures |DecodeBlock(s, code).1| <= |code|
  {
    hide DecodeBlock, Letters;
    DecodedLength(s, code);
  }

  /** A buffer of `n` cells holds what every block of at most `n` characters decodes to,
      and the byte begun after it, exactly when `n` is at least 4. */
  lemma DecodeBufferFits(n: nat)
    ensures n >= 4 <==> forall s: DecodeState, code: seq<byte> | |code| <= n :: |DecodeBlock(s, code).1| < n
  {
    hide DecodeBlock, Letters;
    if n >= 4 {
      forall s: DecodeState, code: seq<byte> | |code| <= n ensures |DecodeBlock(s, code).1| < n {
        DecodedLength(s, code);
      }
    } else {
      var s, code := DecodeState(Snd, 0), seq(n, i => 65 as byte);
      AllLetters(code);
      DecodedLength(s, code);
      assert |DecodeBlock(s, code).1| == n;
    }
  }

  lemma {:induction false} AllLetters(code: seq<byte>)
    requires forall i | 0 <= i < |code| :: code[i] == 65
    ensures Letters(code) == |code|
  {
    if code != [] {
      AllLetters(code[..|code| - 1]);
    }
  }
}
