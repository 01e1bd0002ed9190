/**
 What a string is after a trip through Go's JSON encoder and decoder: every
 byte that is not part of a UTF-8 character becomes U+FFFD (RFC 3629, section 4).
 */
module Json {

  /** U+FFFD in UTF-8 */
  const REPLACEMENT := [0xEF as char, 0xBF as char, 0xBD as char]

  predicate Between(c: char, low: int, high: int) {
    low <= c as int <= high
  }

  predicate Continues(c: char) {
    Between(c, 0x80, 0xBF)
  }

  predicate LeadsThree(first: char, second: char) {
    || (first as int == 0xE0 && Between(second, 0xA0, 0xBF))
    || (Between(first, 0xE1, 0xEC) && Continues(second))
    || (first as int == 0xED && Between(second, 0x80, 0x9F))
    || (Between(first, 0xEE, 0xEF) && Continues(second))
  }

  predicate LeadsFour(first: char, second: char) {
    || (first as int == 0xF0 && Between(second, 0x90, 0xBF))
    || (Between(first, 0xF1, 0xF3) && Continues(second))
    || (first as int == 0xF4 && Between(second, 0x80, 0x8F))
  }

  /** The number of bytes of the character `s` starts with; 0 if it starts with none. */
  function RuneWidth(s: string): (width: nat)
    requires s != ""
    ensures width <= |s|
  {
    if s[0] as int < 0x80 then 1
    else if |s| >= 2 && Between(s[0], 0xC2, 0xDF) && Continues(s[1]) then 2
    else if |s| >= 3 && LeadsThree(s[0], s[1]) && Continues(s[2]) then 3
    else if |s| >= 4 && LeadsFour(s[0], s[1]) && Continues(s[2]) && Continues(s[3]) then 4
    else 0
  }

  predicate ValidUtf8(s: string) {
    s == "" || (RuneWidth(s) > 0 && ValidUtf8(s[RuneWidth(s)..]))
  }

  function Transmit(s: string): string {
    if s == "" then ""
    else if RuneWidth(s) == 0 then REPLACEMENT + Transmit(s[1..])
    else s[..RuneWidth(s)] + Transmit(s[RuneWidth(s)..])
  }

  /** A character is recognised whatever follows it. */
  lemma WidthIgnoresRest(s: string, rest: string)
    requires s != "" && RuneWidth(s) > 0
    ensures RuneWidth(s[..RuneWidth(s)] + rest) == RuneWidth(s)
  {
  }

  /** What arrives is always UTF-8, so a second trip changes nothing. */
  lemma {:induction false} TransmitIsValid(s: string)
    ensures ValidUtf8(Transmit(s))
  {
    if s != "" {
      var width := RuneWidth(s);
      if width == 0 {
        var rest := Transmit(s[1..]);
        TransmitIsValid(s[1..]);
        assert RuneWidth(REPLACEMENT + rest) == 3;
        assert (REPLACEMENT + rest)[3..] == rest;
      } else {
        var rest := Transmit(s[width..]);
        TransmitIsValid(s[width..]);
        WidthIgnoresRest(s, rest);
        assert (s[..width] + rest)[width..] == rest;
      }
    }
  }

  /** A string arrives as it was sent exactly when it is UTF-8. */
  lemma {:induction false} TransmitExactly(s: string)
    ensures Transmit(s) == s <==> ValidUtf8(s)
  {
    if s != "" {
      var width := RuneWidth(s);
      if width == 0 {
        var arrived := REPLACEMENT + Transmit(s[1..]);
        assert arrived[0] == REPLACEMENT[0] && arrived[1] == REPLACEMENT[1] && arrived[2] == REPLACEMENT[2];
      } else {
        TransmitExactly(s[width..]);
        assert s == s[..width] + s[width..];
        assert (s[..width] + Transmit(s[width..]))[width..] == Transmit(s[width..]);
      }
    }
  }

  /** A prefix of UTF-8 is UTF-8 exactly when the cut is not inside a character. */
  lemma {:induction false} PrefixIsValid(s: string, k: nat)
    requires ValidUtf8(s) && k < |s|
    ensures ValidUtf8(s[..k]) <==> !Continues(s[k])
  {
    var width := RuneWidth(s);
    if k >= width {
      PrefixIsValid(s[width..], k - width);
      assert s[..k] == s[..width] + s[width..][..k - width];
      WidthIgnoresRest(s, s[width..][..k - width]);
      assert s[..k][width..] == s[width..][..k - width];
    }
  }

  /** Leading ASCII decides nothing. */
  lemma {:induction false} AsciiPrefix(s: string, t: string)
    requires forall k :: 0 <= k < |s| ==> s[k] as int < 0x80
    ensures ValidUtf8(s + t) <==> ValidUtf8(t)
  {
    if s == "" {
      assert s + t == t;
    } else {
      AsciiPrefix(s[1..], t);
      assert (s + t)[1..] == s[1..] + t;
    }
  }

  // ---------------------------------------------------------------------
  // UTF-8 by code points

  /** A Unicode scalar value. */
  predicate Scalar(point: int) {
    0 <= point < 0xD800 || 0xE000 <= point <= 0x10FFFF
  }

  function Low(point: nat): char {
    (0x80 + point % 64) as char
  }

  /** The table of section 3 of RFC 3629. */
  function Encode(point: int): (s: string)
    requires Scalar(point)
    ensures 1 <= |s| <= 4
  {
    if point < 0x80 then [point as char]
    else if point < 0x800 then [(0xC0 + point / 64) as char, Low(point)]
    else if point < 0x1_0000 then [(0xE0 + point / 4096) as char, Low(point / 64), Low(point)]
    else [(0xF0 + point / 0x4_0000) as char, Low(point / 4096), Low(point / 64), Low(point)]
  }

  ghost predicate Text(points: seq<int>) {
    forall p :: p in points ==> Scalar(p)
  }

  ghost function EncodeAll(points: seq<int>): string
    requires Text(points)
  {
    if points == [] then ""
    else
      assert forall p :: p in points[1..] ==> p in points;
      Encode(points[0]) + EncodeAll(points[1..])
  }

  lemma EncodedWidth(point: int, rest: string)
    requires Scalar(point)
    ensures RuneWidth(Encode(point) + rest) == |Encode(point)|
  {
  }

  /** The code point a string starts with. */
  function Decode(s: string): (point: int)
    requires s != "" && RuneWidth(s) > 0
  {
    if RuneWidth(s) == 1 then s[0] as int
    else if RuneWidth(s) == 2 then (s[0] as int - 0xC0) * 64 + (s[1] as int - 0x80)
    else if RuneWidth(s) == 3 then
      (s[0] as int - 0xE0) * 4096 + (s[1] as int - 0x80) * 64 + (s[2] as int - 0x80)
    else
      (s[0] as int - 0xF0) * 0x4_0000 + (s[1] as int - 0x80) * 4096 + (s[2] as int - 0x80) * 64 + (s[3] as int - 0x80)
  }

  lemma EncodeTwo(a: nat, b: nat)
    requires 2 <= a < 32 && b < 64
    ensures Encode(a * 64 + b) == [(0xC0 + a) as char, (0x80 + b) as char]
  {
  }

  lemma EncodeThree(a: nat, b: nat, c: nat)
    requires a < 16 && b < 64 && c < 64
    requires a * 4096 + b * 64 + c >= 0x800 && Scalar(a * 4096 + b * 64 + c)
    ensures Encode(a * 4096 + b * 64 + c) == [(0xE0 + a) as char, (0x80 + b) as char, (0x80 + c) as char]
  {
    assert (a * 4096 + b * 64 + c) / 64 == a * 64 + b;
  }

  lemma EncodeFour(a: nat, b: nat, c: nat, d: nat)
    requires a < 5 && b < 64 && c < 64 && d < 64
    requires 0x1_0000 <= a * 0x4_0000 + b * 4096 + c * 64 + d <= 0x10FFFF
    ensures Encode(a * 0x4_0000 + b * 4096 + c * 64 + d) ==
            [(0xF0 + a) as char, (0x80 + b) as char, (0x80 + c) as char, (0x80 + d) as char]
  {
    assert (a * 0x4_0000 + b * 4096 + c * 64 + d) / 64 == a * 4096 + b * 64 + c;
    assert (a * 0x4_0000 + b * 4096 + c * 64 + d) / 4096 == a * 64 + b;
  }

  lemma DecodedEncodes(s: string)
    requires s != "" && RuneWidth(s) > 0
    ensures Scalar(Decode(s)) && Encode(Decode(s)) == s[..RuneWidth(s)]
  {
    var width := RuneWidth(s);
    if width == 2 {
      EncodeTwo(s[0] as int - 0xC0, s[1] as int - 0x80);
    } else if width == 3 {
      EncodeThree(s[0] as int - 0xE0, s[1] as int - 0x80, s[2] as int - 0x80);
    } else if width == 4 {
      EncodeFour(s[0] as int - 0xF0, s[1] as int - 0x80, s[2] as int - 0x80, s[3] as int - 0x80);
    }
  }

  /** A string starts with a character exactly when it starts with an encoded code point. */
  lemma StartsCharacter(s: string)
    requires s != ""
    ensures RuneWidth(s) > 0 <==> exists point :: Scalar(point) && Encode(point) <= s
  {
    if RuneWidth(s) > 0 {
      DecodedEncodes(s);
      assert Encode(Decode(s)) <= s;
    }
    if point :| Scalar(point) && Encode(point) <= s {
      EncodedWidth(point, s[|Encode(point)|..]);
      assert s == Encode(point) + s[|Encode(point)|..];
    }
  }

  /** A string is UTF-8 exactly when it encodes a sequence of code points. */
  lemma ValidExactly(s: string)
    ensures ValidUtf8(s) <==> exists points :: Text(points) && EncodeAll(points) == s
  {
    if ValidUtf8(s) {
      var points := DecodeAll(s);
    }
    if points :| Text(points) && EncodeAll(points) == s {
      EncodedIsValid(points);
    }
  }

  lemma {:induction false} DecodeAll(s: string) returns (points: seq<int>)
    requires ValidUtf8(s)
    ensures Text(points) && EncodeAll(points) == s
  {
    points := [];
    if s != "" {
      DecodedEncodes(s);
      var rest := DecodeAll(s[RuneWidth(s)..]);
      points := [Decode(s)] + rest;
      assert points[1..] == rest;
    }
  }

  lemma {:induction false} EncodedIsValid(points: seq<int>)
    requires Text(points)
    ensures ValidUtf8(EncodeAll(points))
  {
    if points != [] {
      var first, rest := Encode(points[0]), EncodeAll(points[1..]);
      EncodedIsValid(points[1..]);
      EncodedWidth(points[0], rest);
      assert (first + rest)[|first|..] == rest;
    }
  }

  // ---------------------------------------------------------------------
  // What becomes of other bytes

  /** One character and what follows it. */
  lemma SplitFirst(s: string) returns (first: string, rest: string)
    requires s != "" && ValidUtf8(s)
    ensures s == first + rest && first != "" && RuneWidth(first) == |first| == RuneWidth(s) && ValidUtf8(rest)
  {
    first, rest := s[..RuneWidth(s)], s[RuneWidth(s)..];
    WidthIgnoresRest(s, "");
    assert first + "" == first;
  }

  lemma CharacterFirst(first: string, rest: string)
    requires first != "" && RuneWidth(first) == |first|
    ensures Transmit(first + rest) == first + Transmit(rest)
    ensures ValidUtf8(first + rest) <==> ValidUtf8(rest)
  {
    WidthIgnoresRest(first, rest);
    assert first[..|first|] == first;
    assert (first + rest)[|first|..] == rest;
    assert (first + rest)[..|first|] == first;
  }

  /** What is UTF-8 at the front arrives as it is. */
  lemma {:induction false} TransmitJoins(s: string, t: string)
    requires ValidUtf8(s)
    ensures Transmit(s + t) == s + Transmit(t)
  {
    if s == "" {
      assert s + t == t;
    } else {
      var first, rest := SplitFirst(s);
      TransmitJoins(rest, t);
      JoinsAfterFirst(first, rest, t);
    }
  }

  lemma Regroup(a: string, b: string, c: string)
    ensures (a + b) + c == a + (b + c)
  {
  }

  lemma JoinsAfterFirst(first: string, rest: string, t: string)
    requires first != "" && RuneWidth(first) == |first|
    requires Transmit(rest + t) == rest + Transmit(t)
    ensures Transmit((first + rest) + t) == (first + rest) + Transmit(t)
  {
    CharacterFirst(first, rest + t);
    Regroup(first, rest, t);
    Regroup(first, rest, Transmit(t));
  }

  /** A byte that starts no character is replaced, and only that byte. */
  lemma StrayByte(s: string)
    requires s != "" && forall point :: Scalar(point) ==> !(Encode(point) <= s)
    ensures Transmit(s) == REPLACEMENT + Transmit(s[1..])
  {
    StartsCharacter(s);
  }

  function Replacements(n: nat): (s: string)
    ensures |s| == 3 * n
  {
    if n == 0 then "" else REPLACEMENT + Replacements(n - 1)
  }

  lemma {:induction false} ContinuationsAreReplaced(s: string)
    requires forall k :: 0 <= k < |s| ==> Continues(s[k])
    ensures Transmit(s) == Replacements(|s|)
  {
    if s != "" {
      ContinuationsAreReplaced(s[1..]);
    }
  }

  lemma CutFirstCharacter(s: string, k: nat)
    requires s != "" && 0 < k < RuneWidth(s)
    ensures Transmit(s[..k]) == Replacements(k)
  {
    ContinuationsAreReplaced(s[..k][1..]);
  }

  lemma {:induction false} CutCharacter(s: string, k: nat) returns (whole: string, part: string)
    requires ValidUtf8(s) && k < |s| && Continues(s[k])
    ensures s[..k] == whole + part && ValidUtf8(whole)
    ensures 1 <= |part| <= 3 && Transmit(part) == Replacements(|part|)
  {
    var width := RuneWidth(s);
    if k < width {
      CutFirstCharacter(s, k);
      whole, part := "", s[..k];
    } else {
      var before;
      before, part := CutCharacter(s[width..], k - width);
      whole := s[..width] + before;
      CutJoins(s, width, k, before, part);
      CharacterStays(s, before);
    }
  }

  lemma CutJoins(s: string, width: nat, k: nat, before: string, part: string)
    requires width <= k <= |s| && s[width..][..k - width] == before + part
    ensures s[..k] == (s[..width] + before) + part
  {
    assert s[..k] == s[..width] + s[width..][..k - width];
  }

  lemma CharacterStays(s: string, rest: string)
    requires s != "" && RuneWidth(s) > 0 && ValidUtf8(rest)
    ensures ValidUtf8(s[..RuneWidth(s)] + rest)
  {
    WidthIgnoresRest(s, rest);
    assert (s[..RuneWidth(s)] + rest)[RuneWidth(s)..] == rest;
  }

  lemma FrontOf(s: string, k: nat, front: string, part: string)
    requires k <= |s| && s[..k] == front + part
    ensures |front| <= k && s[..|front|] == front && |part| == k - |front|
  {
    assert s[..|front|] == s[..k][..|front|];
  }

  /**
   A prefix cut inside a character arrives as the whole characters before the
   cut, then one replacement for each byte that is left of the last.
   */
  lemma CutArrives(s: string, k: nat) returns (whole: nat)
    requires ValidUtf8(s) && k < |s| && Continues(s[k])
    ensures k - 3 <= whole < k && ValidUtf8(s[..whole])
    ensures Transmit(s[..k]) == s[..whole] + Replacements(k - whole)
  {
    var front, part := CutCharacter(s, k);
    whole := |front|;
    TransmitJoins(front, part);
    FrontOf(s, k, front, part);
  }
}
