/** The base64 encoder and decoder working on buffers, with the state they keep
    between calls, and the loop that encodes a stream. */
module Base64Coders {
  import opened Options
  import opened Base64

  class EncoderState {
    var step: EncodeStep
    var result: byte
    var stepcount: nat

    constructor ()
      ensures Value() == ENCODE_INIT
    {
      step, result, stepcount := A, 0, 0;
    }

    function Value(): EncodeState
      reads this
    {
      EncodeState(step, result, stepcount)
    }

    method Init()
      modifies this
      ensures Value() == ENCODE_INIT
    {
      step, result, stepcount := A, 0, 0;
    }
  }

  class DecoderState {
    var step: DecodeStep
    var plainchar: byte

    constructor ()
      ensures Value() == DECODE_INIT
    {
      step, plainchar := Fst, 0;
    }

    /** At the first step the unfinished byte means nothing. */
    function Value(): DecodeState
      reads this
    {
      DecodeState(step, if step == Fst then 0 else plainchar)
    }

    method Init()
      modifies this
      ensures Value() == DECODE_INIT
    {
      step, plainchar := Fst, 0;
    }
  }

  /** The state and the text one byte later. */
  function AndByte(r: (EncodeState, seq<byte>), b: byte): (EncodeState, seq<byte>) {
    var (s, last) := EncodeByte(r.0, b);
    (s, r.1 + last)
  }

  function AndChar(r: (DecodeState, seq<byte>), c: byte): (DecodeState, seq<byte>) {
    var (s, last) := DecodeChar(r.0, c);
    (s, r.1 + last)
  }

  lemma EncodePrefix(s: EncodeState, p: seq<byte>, i: nat)
    requires i <= |p|
    ensures |EncodeBlock(s, p[..i]).1| <= |EncodeBlock(s, p).1|
    ensures i < |p| ==> EncodeBlock(s, p[..i + 1]) == AndByte(EncodeBlock(s, p[..i]), p[i])
  {
    hide EncodeByte;
    EncodeBlockSplits(s, p[..i], p[i..]);
    assert p[..i] + p[i..] == p;
    if i < |p| {
      assert p[..i + 1][..i] == p[..i];
    }
  }

  lemma DecodePrefix(s: DecodeState, code: seq<byte>, i: nat)
    requires i <= |code|
    ensures |DecodeBlock(s, code[..i]).1| <= |DecodeBlock(s, code).1|
    ensures i < |code| ==> DecodeBlock(s, code[..i + 1]) == AndChar(DecodeBlock(s, code[..i]), code[i])
  {
    hide DecodeChar;
    DecodeBlockSplits(s, code[..i], code[i..]);
    assert code[..i] + code[i..] == code;
    if i < |code| {
      assert code[..i + 1][..i] == code[..i];
    }
  }

  /** Appends a character to the `n` written before. */
  method Put(code: array<byte>, n: nat, c: byte) returns (m: nat)
    requires n < code.Length
    modifies code
    ensures m == n + 1 && code[..m] == old(code[..n]) + [c]
    ensures forall j | m <= j < code.Length :: code[j] == old(code[j])
  {
    code[n] := c;
    m := n + 1;
  }

  /** The part of the encoder loop at a step, for one byte. */
  method EncodeFragment(fragment: byte, step: EncodeStep, partial: byte, code: array<byte>, written: nat,
                        st: EncoderState)
    returns (nextStep: EncodeStep, result: byte, n: nat)
    requires written + |EncodeByte(EncodeState(step, partial, st.stepcount), fragment).1| <= code.Length
    modifies code, st`stepcount
    ensures n <= code.Length
    ensures var (s, last) := EncodeByte(EncodeState(step, partial, old(st.stepcount)), fragment);
            EncodeState(nextStep, result, st.stepcount) == s && code[..n] == old(code[..written]) + last
    ensures forall j | n <= j < code.Length :: code[j] == old(code[j])
  {
    hide EncodeValue;
    ghost var before, last := code[..written], EncodeByte(EncodeState(step, partial, st.stepcount), fragment).1;
    match step {
      case A =>
        result := (fragment & 0xfc) >> 2;
        n := Put(code, written, EncodeValue(result));
        assert code[..n] == before + last;
        result := (fragment & 0x03) << 4;
        nextStep := B;
      case B =>
        result := partial | ((fragment & 0xf0) >> 4);
        n := Put(code, written, EncodeValue(result));
        assert code[..n] == before + last;
        result := (fragment & 0x0f) << 2;
        nextStep := C;
      case C =>
        result, n := EncodeLastFragment(fragment, partial, code, written, st);
        nextStep := A;
    }
  }

  /** The last byte of a group writes two characters, and may end the line. */
  method EncodeLastFragment(fragment: byte, partial: byte, code: array<byte>, written: nat, st: EncoderState)
    returns (result: byte, n: nat)
    requires written + |EncodeByte(EncodeState(C, partial, st.stepcount), fragment).1| <= code.Length
    modifies code, st`stepcount
    ensures n <= code.Length
    ensures var (s, last) := EncodeByte(EncodeState(C, partial, old(st.stepcount)), fragment);
            EncodeState(A, result, st.stepcount) == s && code[..n] == old(code[..written]) + last
    ensures forall j | n <= j < code.Length :: code[j] == old(code[j])
  {
    hide EncodeValue;
    hide EncodeByte;
    ghost var before := code[..written];
    ghost var x, y := EncodeValue(partial | ((fragment & 0xc0) >> 6)), EncodeValue(fragment & 0x3f);
    ThirdByte(partial, st.stepcount, fragment);
    result := partial | ((fragment & 0xc0) >> 6);
    n := Put(code, written, EncodeValue(result));
    result := fragment & 0x3f;
    n := Put(code, n, EncodeValue(result));
    st.stepcount := st.stepcount + 1;
    assert code[..n] == before + [x, y];
    if st.stepcount == CHARS_PER_LINE / 4 {
      n := Put(code, n, NEWLINE);
      st.stepcount := 0;
      assert code[..n] == before + [x, y, NEWLINE];
    }
  }

  lemma ThirdByte(partial: byte, stepcount: nat, b: byte)
    ensures var x, y := EncodeValue(partial | ((b & 0xc0) >> 6)), EncodeValue(b & 0x3f);
            EncodeByte(EncodeState(C, partial, stepcount), b) ==
            if stepcount + 1 == CHARS_PER_LINE / 4 then (EncodeState(A, b & 0x3f, 0), [x, y, NEWLINE])
            else (EncodeState(A, b & 0x3f, stepcount + 1), [x, y])
  {
    hide EncodeValue;
    var x, y := EncodeValue(partial | ((b & 0xc0) >> 6)), EncodeValue(b & 0x3f);
    assert [x, y] + [NEWLINE] == [x, y, NEWLINE];
  }

  /** Resumes the encoder at its step with the next bytes of the input. */
  method EncodeBuffer(plaintext: array<byte>, length: nat, code: array<byte>, st: EncoderState) returns (n: nat)
    requires length <= plaintext.Length && plaintext != code
    requires |EncodeBlock(st.Value(), plaintext[..length]).1| <= code.Length
    modifies code, st
    ensures n <= code.Length
    ensures (st.Value(), code[..n]) == EncodeBlock(old(st.Value()), plaintext[..length])
    ensures forall j | n <= j < code.Length :: code[j] == old(code[j])
  {
    hide EncodeBlock, EncodeByte;
    ghost var s, p := st.Value(), plaintext[..length];
    var step, result := st.step, st.result;
    var i := 0;
    n := 0;
    EncodeNothing(s, p[..0]);
    while i != length
      invariant 0 <= i <= length && n <= code.Length
      invariant (EncodeState(step, result, st.stepcount), code[..n]) == EncodeBlock(s, p[..i])
      invariant forall j | n <= j < code.Length :: code[j] == old(code[j])
    {
      EncodePrefix(s, p, i);
      EncodePrefix(s, p, i + 1);
      step, result, n := EncodeFragment(plaintext[i], step, result, code, n, st);
      i := i + 1;
    }
    st.result := result;
    st.step := step;
    assert p[..i] == p;
  }

  lemma EncodeNothing(s: EncodeState, p: seq<byte>)
    requires p == []
    ensures EncodeBlock(s, p) == (s, [])
  {
  }

  /** Completes the last group. */
  method EncodeBufferEnd(code: array<byte>, st: EncoderState) returns (n: nat)
    requires |EncodeBlockEnd(st.Value())| <= code.Length
    modifies code
    ensures n <= code.Length && code[..n] == EncodeBlockEnd(st.Value())
    ensures forall j | n <= j < code.Length :: code[j] == old(code[j])
  {
    hide EncodeValue;
    n := 0;
    match st.step {
      case B =>
        n := Put(code, n, EncodeValue(st.result));
        n := Put(code, n, PAD);
        n := Put(code, n, PAD);
      case C =>
        n := Put(code, n, EncodeValue(st.result));
        n := Put(code, n, PAD);
      case A =>
    }
    n := Put(code, n, NEWLINE);
  }

  /** Resumes the decoder at its step. The cell after the bytes written holds the
      unfinished byte, so the buffer needs one cell more than there are bytes. */
  method DecodeBuffer(code: array<byte>, length: nat, plaintext: array<byte>, st: DecoderState) returns (n: nat)
    requires length <= code.Length && plaintext != code
    requires |DecodeBlock(st.Value(), code[..length]).1| < plaintext.Length
    modifies plaintext, st
    ensures n < plaintext.Length
    ensures (st.Value(), plaintext[..n]) == DecodeBlock(old(st.Value()), code[..length])
  {
    hide DecodeBlock, DecodeChar, DecodeValue;
    ghost var s, p := st.Value(), code[..length];
    var step := st.step;
    plaintext[0] := st.plainchar;
    var i := 0;
    n := 0;
    DecodeNothing(s, p[..0]);
    while i != length
      invariant 0 <= i <= length && n < plaintext.Length
      invariant DecodeState(step, if step == Fst then 0 else plaintext[n]) == DecodeBlock(s, p[..i]).0
      invariant plaintext[..n] == DecodeBlock(s, p[..i]).1
    {
      DecodePrefix(s, p, i);
      DecodePrefix(s, p, i + 1);
      step, n := DecodeFragment(code[i], step, plaintext, n);
      i := i + 1;
    }
    st.step := step;
    st.plainchar := plaintext[n];
    assert p[..i] == p;
  }

  lemma DecodeNothing(s: DecodeState, p: seq<byte>)
    requires p == []
    ensures DecodeBlock(s, p) == (s, [])
  {
  }

  /** Completes the unfinished byte at position `n`, and begins the next one after it. */
  method Complete(plaintext: array<byte>, n: nat, low: byte, next: byte) returns (m: nat)
    requires n + 1 < plaintext.Length
    modifies plaintext
    ensures m == n + 1 && plaintext[..m] == old(plaintext[..n]) + [old(plaintext[n]) | low]
    ensures plaintext[m] == next
  {
    m := Put(plaintext, n, plaintext[n] | low);
    plaintext[m] := next;
  }

  /** The part of the decoder loop at a step, for one code character. */
  method DecodeFragment(c: byte, step: DecodeStep, plaintext: array<byte>, written: nat)
    returns (nextStep: DecodeStep, n: nat)
    requires written < plaintext.Length
    requires var s := DecodeState(step, if step == Fst then 0 else plaintext[written]);
             written + |DecodeChar(s, c).1| < plaintext.Length
    modifies plaintext
    ensures n < plaintext.Length
    ensures var s := DecodeState(step, if step == Fst then 0 else old(plaintext[written]));
            var (s1, last) := DecodeChar(s, c);
            && DecodeState(nextStep, if nextStep == Fst then 0 else plaintext[n]) == s1
            && plaintext[..n] == old(plaintext[..written]) + last
  {
    hide DecodeValue;
    nextStep, n := step, written;
    var value := DecodeValue(c);
    if value.None? {
      return;
    }
    var fragment := value.value;
    match step {
      case Fst =>
        plaintext[n] := (fragment & 0x3f) << 2;
        nextStep := Snd;
      case Snd =>
        n := Complete(plaintext, n, (fragment & 0x30) >> 4, (fragment & 0x0f) << 4);
        nextStep := Trd;
      case Trd =>
        n := Complete(plaintext, n, (fragment & 0x3c) >> 2, (fragment & 0x03) << 6);
        nextStep := Fth;
      case Fth =>
        n := Put(plaintext, n, plaintext[n] | (fragment & 0x3f));
        nextStep := Fst;
    }
  }

  /** Encodes a stream read in blocks of at most `size` bytes, through a text
      buffer of twice that size. */
  method EncodeStream(input: seq<byte>, size: nat, st: EncoderState) returns (output: seq<byte>)
    requires size >= 2
    modifies st
    ensures output == Lines(input, 0) && st.Value() == ENCODE_INIT
  {
    hide EncodeBlock, Lines, EncodeBlockEnd;
    st.Init();
    var plaintext := new byte[size];
    var code := new byte[2 * size];
    var pos := 0;
    output := [];
    EncodeNothing(ENCODE_INIT, input[..0]);
    var good := true;
    while good
      invariant 0 <= pos <= |input| && fresh(plaintext) && fresh(code)
      invariant (st.Value(), output) == EncodeBlock(ENCODE_INIT, input[..pos])
      invariant !good ==> pos == |input|
      decreases |input| - pos, good
    {
      var plainlength := if |input| - pos < size then |input| - pos else size;
      forall i | 0 <= i < plainlength {
        plaintext[i] := input[pos + i];
      }
      ghost var block := input[pos..pos + plainlength];
      assert plaintext[..plainlength] == block;
      BlockLength(ENCODE_INIT, input[..pos]);
      BufferFits(size);
      EncodeBlockSplits(ENCODE_INIT, input[..pos], block);
      assert input[..pos] + block == input[..pos + plainlength];
      var codelength := EncodeBuffer(plaintext, plainlength, code, st);
      output := output + code[..codelength];
      pos := pos + plainlength;
      // The stream is good while a whole block could be read.
      good := plainlength == size && plainlength > 0;
    }
    assert input[..pos] == input;
    BufferFits(size);
    var endlength := EncodeBufferEnd(code, st);
    output := output + code[..endlength];
    EncoderWritesLines(ENCODE_INIT, input);
    st.Init();
  }

  /** Decodes a stream read in blocks of at most `size` characters, through a buffer of
      as many cells. */
  method DecodeStream(input: seq<byte>, size: nat, st: DecoderState) returns (output: seq<byte>)
    requires size >= 4
    modifies st
    ensures output == DecodeBlock(DECODE_INIT, input).1 && st.Value() == DECODE_INIT
    ensures forall p | input == Lines(p, 0) :: output == p
  {
    hide DecodeBlock, Lines;
    st.Init();
    var code := new byte[size];
    var plaintext := new byte[size];
    var pos := 0;
    output := [];
    DecodeNothing(DECODE_INIT, input[..0]);
    var good := true;
    while good
      invariant 0 <= pos <= |input| && fresh(plaintext) && fresh(code)
      invariant (st.Value(), output) == DecodeBlock(DECODE_INIT, input[..pos])
      invariant !good ==> pos == |input|
      decreases |input| - pos, good
    {
      var codelength := if |input| - pos < size then |input| - pos else size;
      forall i | 0 <= i < codelength {
        code[i] := input[pos + i];
      }
      ghost var block := input[pos..pos + codelength];
      assert code[..codelength] == block;
      DecodeBufferFits(size);
      DecodeBlockSplits(DECODE_INIT, input[..pos], block);
      assert input[..pos] + block == input[..pos + codelength];
      var plainlength := DecodeBuffer(code, codelength, plaintext, st);
      output := output + plaintext[..plainlength];
      pos := pos + codelength;
      // The stream is good while a whole block could be read.
      good := codelength == size && codelength > 0;
    }
    assert input[..pos] == input;
    forall p | input == Lines(p, 0) ensures output == p {
      DecodeLines(DECODE_INIT, p, 0);
    }
    st.Init();
  }
}
