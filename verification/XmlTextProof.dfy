/** Escaping and reading undo each other exactly on the strings without a
    hexadecimal reference. */
module XmlTextProof {
  import opened Options
  import opened XmlText

  /** The end tags of text and of attribute values. */
  predicate IsEndTag(tag: string) {
    tag == "<" || tag == "\"" || tag == "'"
  }

  /** No position starts a hexadecimal character reference. */
  predicate NoHexReference(s: string) {
    forall i | 0 <= i < |s| :: !StartsHexReference(s[i..])
  }

  lemma HexDigitIs(d: nat)
    requires d < 16
    ensures HexValue(HexDigit(d)) == Some(d) && HexDigit(d) != ';' && HexDigit(d) != 'x'
  {
  }

  /** Two hexadecimal digits between the mark and the semicolon. */
  lemma TwoDigits(p: string, x: nat, y: nat)
    requires |p| >= 6 && p[2] == 'x' && x < 16 && y < 16
    requires p[3] == HexDigit(x) && p[4] == HexDigit(y)
    ensures Digits(p, 4, 'x', 16, 0, 1) == Some(16 * x + y)
  {
    hide HexDigit, HexValue, Digits;
    HexDigitIs(x);
    HexDigitIs(y);
    OneDigit(p, 4, 0, 1, y, y);
    OneDigit(p, 3, y, 16, x, 16 * x);
    NoDigit(p, 16 * x + y, 256);
  }

  lemma OneDigit(p: string, q: nat, ucs: nat, mult: nat, d: nat, value: nat)
    requires 2 < q < |p| && p[2] == 'x' && p[q] != 'x' && HexValue(p[q]) == Some(d)
    requires value == mult * d && value + ucs < 256 && mult <= 16
    ensures Digits(p, q, 'x', 16, ucs, mult) == Digits(p, q - 1, 'x', 16, ucs + value, mult * 16)
  {
    hide HexValue, Digits;
    DigitStep(p, q, ucs, mult, d);
    assert mult * d % 0x1_0000_0000 == value;
    assert (ucs + value) % 0x1_0000_0000_0000_0000 == ucs + value;
    assert mult * 16 % 0x1_0000_0000 == mult * 16;
  }

  lemma DigitStep(p: string, q: nat, ucs: nat, mult: nat, d: nat)
    requires 2 < q < |p| && p[2] == 'x' && p[q] != 'x' && HexValue(p[q]) == Some(d)
    ensures Digits(p, q, 'x', 16, ucs, mult)
            == Digits(p, q - 1, 'x', 16,
                      (ucs + mult * d % 0x1_0000_0000) % 0x1_0000_0000_0000_0000, mult * 16 % 0x1_0000_0000)
  {
    hide HexValue;
  }

  lemma NoDigit(p: string, ucs: nat, mult: nat)
    requires 2 < |p| && p[2] == 'x'
    ensures Digits(p, 2, 'x', 16, ucs, mult) == Some(ucs)
  {
  }

  lemma FirstSemicolon(p: string, x: nat, y: nat)
    requires |p| >= 6 && x < 16 && y < 16
    requires p[3] == HexDigit(x) && p[4] == HexDigit(y) && p[5] == ';'
    ensures Semicolon(p, 3) == 5
  {
    HexDigitIs(x);
    HexDigitIs(y);
    assert Semicolon(p, 3) == Semicolon(p, 4) == Semicolon(p, 5);
  }

  /** A character below 32 reads back from its hexadecimal reference. */
  lemma ReadControl(c: char, rest: string)
    requires c as int < 32
    ensures GetEntity(EscapeChar(c) + rest) == Some(([c], rest))
  {
    hide HexDigit, Digits, Semicolon;
    var x, y := c as int / 16, c as int % 16;
    var p := EscapeChar(c) + rest;
    assert EscapeChar(c) == ['&', '#', 'x', HexDigit(x), HexDigit(y), ';'];
    TwoDigits(p, x, y);
    FirstSemicolon(p, x, y);
    assert p[6..] == rest;
  }

  lemma PrefixOf(tag: string, rest: string)
    ensures StringEqual(tag + rest, tag) && (tag + rest)[|tag|..] == rest
  {
  }

  lemma OtherTag(p: string, tag: string, i: nat)
    requires i < |p| && i < |tag| && p[i] != tag[i]
    ensures !StringEqual(p, tag)
  {
    assert |tag| <= |p| ==> p[..|tag|][i] == p[i];
  }

  /** An escaped character reads back. */
  lemma ReadEscaped(c: char, rest: string)
    requires IsByte(c)
    ensures GetChar(EscapeChar(c) + rest) == Some(([c], rest))
  {
    var e := EscapeChar(c);
    var p := e + rest;
    PrefixOf(e, rest);
    if c == '&' {
    } else if c == '<' {
      OtherTag(p, AMP, 1);
    } else if c == '>' {
      OtherTag(p, AMP, 1);
      OtherTag(p, LT, 1);
    } else if c == '\"' {
      OtherTag(p, AMP, 1);
      OtherTag(p, LT, 1);
      OtherTag(p, GT, 1);
    } else if c == '\'' {
      OtherTag(p, AMP, 2);
      OtherTag(p, LT, 1);
      OtherTag(p, GT, 1);
      OtherTag(p, QUOT, 1);
    } else if c as int < 32 {
      ReadControl(c, rest);
    }
  }

  /** Reading goes past an escaped character. */
  lemma ReadNext(c: char, rest: string, endTag: string)
    requires IsByte(c) && IsEndTag(endTag)
    ensures ReadText(EscapeChar(c) + rest, endTag) ==
            match ReadText(rest, endTag)
            case None => None
            case Some((text, end)) => Some(([c] + text, end))
  {
    hide GetChar;
    ReadEscaped(c, rest);
    assert !StringEqual(EscapeChar(c) + rest, endTag) by {
      OtherTag(EscapeChar(c) + rest, endTag, 0);
    }
  }

  /** Escaping then reading gives the string back and stops just past the tag. */
  lemma {:induction false} EscapeThenRead(s: string, endTag: string, rest: string)
    requires IsText(s) && IsEndTag(endTag) && NoHexReference(s)
    ensures ReadText(Escape(s) + endTag + rest, endTag) == Some((s, rest))
  {
    hide EscapeChar, GetChar, StartsHexReference;
    if s == "" {
      assert Escape(s) + endTag + rest == endTag + rest;
      PrefixOf(endTag, rest);
    } else {
      assert s[0..] == s && !StartsHexReference(s[0..]);
      forall i | 0 <= i < |s[1..]|
        ensures !StartsHexReference(s[1..][i..])
      {
        assert s[1..][i..] == s[i + 1..];
      }
      EscapeThenRead(s[1..], endTag, rest);
      ReadNext(s[0], Escape(s[1..]) + endTag + rest, endTag);
      assert Escape(s) + endTag + rest == EscapeChar(s[0]) + (Escape(s[1..]) + endTag + rest);
      assert s == [s[0]] + s[1..];
    }
  }

  // ------------------------------------------- why references do not read back

  lemma SemicolonAt(p: string, k: nat, q: nat)
    requires k <= q < |p| && p[q] == ';' && forall i | k <= i < q :: p[i] != ';'
    ensures Semicolon(p, k) == q
  {
  }

  /** The digits of a reference stop at the first character that is none. */
  lemma BadDigit(p: string, q: nat)
    requires 2 < q < |p| && p[2] == 'x' && p[q] != 'x' && HexValue(p[q]) == None
    ensures Digits(p, q, 'x', 16, 0, 1) == None
  {
  }

  lemma EscapeOne(c: char)
    requires IsByte(c)
    ensures Escape([c]) == EscapeChar(c)
  {
    assert [c][1..] == "";
    assert EscapeChar(c) + "" == EscapeChar(c);
  }

  lemma EscapeReference(s: string, k: nat)
    requires IsText(s) && StartsHexReference(s) && k == PassLength(s, 1) && s[k] == ';'
    ensures Escape(s) == s[..k] + ";" + Escape(s[k + 1..])
  {
    hide Digits, HexDigit;
    assert s[k..][1..] == s[k + 1..];
    assert Escape(s[k..]) == ";" + Escape(s[k + 1..]);
    assert s[..k] + (";" + Escape(s[k + 1..])) == s[..k] + ";" + Escape(s[k + 1..]);
  }

  lemma ReadReference(p: string, k: nat)
    requires 3 <= k < |p| && p[0] == '&' && p[1] == '#' && p[2] == 'x'
    requires p[k] == ';' && forall i | 3 <= i < k :: p[i] != ';'
    ensures GetEntity(p).Some? ==> |GetEntity(p).value.0| == 1 && GetEntity(p).value.1 == p[k + 1..]
  {
    hide Digits;
    SemicolonAt(p, 3, k);
  }

  /** A reference that has its semicolon reads as one character. */
  lemma ReferenceWithSemicolon(s: string, k: nat, tail: string)
    requires IsText(s) && StartsHexReference(s) && k == PassLength(s, 1) && s[k] == ';'
    ensures var p := Escape(s) + tail;
            GetChar(p).Some? ==> |GetChar(p).value.0| == 1 && GetChar(p).value.1 == Escape(s[k + 1..]) + tail
  {
    hide GetEntity, Escape;
    EscapeReference(s, k);
    var p := Escape(s) + tail;
    assert forall i | 0 <= i < k :: p[i] == s[i];
    ReadReference(p, k);
    assert p[k + 1..] == Escape(s[k + 1..]) + tail;
  }

  /** A reference without one goes on into the escape of its last character or
      past the end tag. */
  lemma ReferenceWithoutSemicolon(s: string, k: nat, endTag: string, rest: string)
    requires IsText(s) && StartsHexReference(s) && IsEndTag(endTag)
    requires k == PassLength(s, 1) && s[k] != ';'
    ensures var p := Escape(s) + endTag + rest;
            var r := GetChar(p);
            r.Some? ==> |r.value.0| == 1
                        && ((k >= 3 && r.value.1 == endTag + rest) || |r.value.1| <= |rest|)
  {
    hide Digits, HexDigit, EscapeChar;
    var c, p := s[k], Escape(s) + endTag + rest;
    assert s[k..] == [c];
    EscapeOne(c);
    assert p == s[..k] + (EscapeChar(c) + (endTag + rest));
    assert forall i | 0 <= i < k :: p[i] == s[i];
    assert p[k..] == EscapeChar(c) + (endTag + rest);
    assert p[2] == 'x' by {
      if k == 2 { PlainChar(c); }
    }
    LastCharacter(s, k, p, endTag, rest);
  }

  lemma PlainChar(c: char)
    requires IsByte(c) && c as int >= 32 && c != '&' && c != '<' && c != '>' && c != '\"' && c != '\''
    ensures EscapeChar(c) == [c]
  {
  }

  lemma LastCharacter(s: string, k: nat, p: string, endTag: string, rest: string)
    requires IsText(s) && StartsHexReference(s) && IsEndTag(endTag)
    requires k == |s| - 1 && s[k] != ';' && forall i | 1 <= i < k :: s[i] != ';'
    requires |p| >= k && p[..k] == s[..k] && p[k..] == EscapeChar(s[k]) + (endTag + rest) && |p| > 2 && p[2] == 'x'
    ensures var r := GetEntity(p);
            r.Some? ==> |r.value.0| == 1
                        && ((k >= 3 && r.value.1 == endTag + rest) || |r.value.1| <= |rest|)
  {
    hide Digits, HexDigit, EscapeChar;
    var c, e := s[k], EscapeChar(s[k]);
    assert forall i | 0 <= i < k :: p[i] == s[..k][i];
    assert forall i | 0 <= i < |e| :: p[k + i] == p[k..][i] == e[i];
    EscapeShape(c);
    var q := Semicolon(p, 3);
    if |e| > 1 {
      SemicolonAt(p, 3, k + |e| - 1);
      assert p[q + 1..] == endTag + rest by {
        assert p[k..][|e|..] == endTag + rest;
      }
      if c as int >= 32 {
        BadDigit(p, q - 1);
      }
    } else {
      assert p[k + 1] == p[k..][1] == endTag[0];
      assert q > k + 1;
    }
  }

  /** An escape is one character, or ends with its only semicolon, after a
      character that is no hexadecimal digit unless it is a control. */
  lemma EscapeShape(c: char)
    requires IsByte(c)
    ensures var e := EscapeChar(c);
            && |e| >= 1
            && (|e| == 1 ==> e[0] == c)
            && (|e| > 1 ==>
                  && e[|e| - 1] == ';' && |e| >= 4
                  && (c == '&' || c == '<' || c == '>' || c == '\"' || c == '\'' || c as int < 32))
            && (|e| > 1 ==> forall i | 0 <= i < |e| - 1 :: e[i] != ';')
            && (|e| > 1 && c as int >= 32 ==> HexValue(e[|e| - 2]) == None && e[|e| - 2] != 'x')
  {
    if c as int < 32 {
      HexDigitIs(c as int / 16);
      HexDigitIs(c as int % 16);
    }
  }

  /** What an escaped string reads back as, up to its tag, is never longer than
      the string, and shorter when it has a hexadecimal reference. */
  lemma {:induction false} ReadNoLonger(s: string, endTag: string, rest: string)
    requires IsText(s) && IsEndTag(endTag)
    ensures var r := ReadText(Escape(s) + endTag + rest, endTag);
            r.Some? && r.value.1 == rest ==> |r.value.0| <= |s| && (!NoHexReference(s) ==> |r.value.0| < |s|)
    decreases |s|
  {
    hide EscapeChar, GetChar, StartsHexReference, Escape;
    var p := Escape(s) + endTag + rest;
    if s == "" {
      assert p == endTag + rest by { assert Escape(s) == "" by { EscapeNothing(); } }
      PrefixOf(endTag, rest);
    } else if StartsHexReference(s) {
      StopsNot(s, endTag, rest);
      var k := PassLengthOf(s);
      if s[k] == ';' {
        ReferenceWithSemicolon(s, k, endTag + rest);
        assert p == Escape(s) + (endTag + rest);
        assert Escape(s[k + 1..]) + (endTag + rest) == Escape(s[k + 1..]) + endTag + rest;
        ReadNoLonger(s[k + 1..], endTag, rest);
      } else {
        ReferenceWithoutSemicolon(s, k, endTag, rest);
        PrefixOf(endTag, rest);
      }
    } else {
      ReadNoLonger(s[1..], endTag, rest);
      ReadNext(s[0], Escape(s[1..]) + endTag + rest, endTag);
      EscapePlain(s);
      assert p == EscapeChar(s[0]) + (Escape(s[1..]) + endTag + rest);
      if NoHexReference(s[1..]) {
        forall i | 0 <= i < |s|
          ensures !StartsHexReference(s[i..])
        {
          if i == 0 {
            assert s[0..] == s;
          } else {
            assert s[i..] == s[1..][i - 1..];
          }
        }
      }
    }
  }

  lemma EscapeNothing()
    ensures Escape("") == ""
  {
  }

  lemma EscapePlain(s: string)
    requires IsText(s) && s != "" && !StartsHexReference(s)
    ensures Escape(s) == EscapeChar(s[0]) + Escape(s[1..])
  {
  }

  lemma PassLengthOf(s: string) returns (k: nat)
    requires StartsHexReference(s)
    ensures k == PassLength(s, 1) && 0 < k < |s|
  {
    k := PassLength(s, 1);
  }

  lemma StopsNot(s: string, endTag: string, rest: string)
    requires IsText(s) && StartsHexReference(s) && IsEndTag(endTag)
    ensures var p := Escape(s) + endTag + rest; p != "" && !StringEqual(p, endTag)
  {
    var p := Escape(s) + endTag + rest;
    assert p[0] == '&';
    OtherTag(p, endTag, 0);
  }

  /** A string reads back from its escape, just up to the end tag, exactly when it
      has no hexadecimal reference. */
  lemma EscapeReadIff(s: string, endTag: string, rest: string)
    requires IsText(s) && IsEndTag(endTag)
    ensures ReadText(Escape(s) + endTag + rest, endTag) == Some((s, rest)) <==> NoHexReference(s)
  {
    hide ReadText, Escape, NoHexReference;
    if NoHexReference(s) {
      EscapeThenRead(s, endTag, rest);
    } else {
      ReadNoLonger(s, endTag, rest);
    }
  }
}
