/** The demo page's base64 encoder, and the encoding of section 4 of RFC 4648 it is meant to be. */
module Base64 {
  import opened Options
  import opened Bytes
  import opened BitOps

  /** What charCodeAt yields: a UTF-16 code unit. */
  type Code = c: int | 0 <= c < 0x10000

  const LETTERS: string := "ABCDEFGHIJKLMNOPQRSTUVWXYZ" + "abcdefghijklmnopqrstuvwxyz" + "0123456789" + "+/="

  // ---------------------------------------------------------------- the standard

  /** Table 1 of RFC 4648. */
  function Letter(h: nat): char
    requires h < 64
  {
    if h < 26 then 'A' + h as char
    else if h < 52 then 'a' + (h - 26) as char
    else if h < 62 then '0' + (h - 52) as char
    else if h == 62 then '+' else '/'
  }

  function Value(c: char): Option<nat> {
    if 'A' <= c <= 'Z' then Some((c - 'A') as nat)
    else if 'a' <= c <= 'z' then Some((c - 'a') as nat + 26)
    else if '0' <= c <= '9' then Some((c - '0') as nat + 52)
    else if c == '+' then Some(62)
    else if c == '/' then Some(63)
    else None
  }

  lemma LetterValue(c: char, h: nat)
    ensures Value(c) == Some(h) <==> h < 64 && Letter(h) == c
    ensures c == '=' ==> Value(c) == None
  {
  }

  /** One to three octets become four letters; what is missing counts as zero and is padded. */
  function EncodedGroup(g: seq<byte>): (t: string)
    requires 1 <= |g| <= 3
    ensures |t| == 4
  {
    if |g| == 1 then [Letter(g[0] / 4), Letter(g[0] % 4 * 16), '=', '=']
    else if |g| == 2 then [Letter(g[0] / 4), Letter(g[0] % 4 * 16 + g[1] / 16), Letter(g[1] % 16 * 4), '=']
    else [Letter(g[0] / 4), Letter(g[0] % 4 * 16 + g[1] / 16), Letter(g[1] % 16 * 4 + g[2] / 64), Letter(g[2] % 64)]
  }

  function Encoded(s: seq<byte>): string {
    if |s| == 0 then "" else if |s| <= 3 then EncodedGroup(s)
    else EncodedGroup(s[..3]) + Encoded(s[3..])
  }

  /** The octets of four letters, if the padding is in its place and the bits before it are zero. */
  function DecodedGroup(t: string): Option<seq<byte>>
    requires |t| == 4
  {
    if Value(t[0]).None? || Value(t[1]).None? then None else
    var a, b := Value(t[0]).value, Value(t[1]).value;
    LetterValue(t[0], a); LetterValue(t[1], b);
    if t[2] == '=' then
      if t[3] == '=' && b % 16 == 0 then Some([4 * a + b / 16]) else None
    else if Value(t[2]).None? then None else
    var c := Value(t[2]).value;
    LetterValue(t[2], c);
    if t[3] == '=' then
      if c % 4 == 0 then Some([4 * a + b / 16, b % 16 * 16 + c / 4]) else None
    else if Value(t[3]).None? then None else
    var d := Value(t[3]).value;
    LetterValue(t[3], d);
    Some([4 * a + b / 16, b % 16 * 16 + c / 4, c % 4 * 64 + d])
  }

  /** The strict decoder: whole groups, of which only the last may be padded. */
  function Decoded(t: string): Option<seq<byte>> {
    if |t| == 0 then Some([])
    else if |t| < 4 then None
    else
      var group := DecodedGroup(t[..4]);
      if |t| == 4 || group.None? then group
      else if |group.value| < 3 then None
      else
        var rest := Decoded(t[4..]);
        if rest.None? then None else Some(group.value + rest.value)
  }

  lemma GroupOfOne(a: byte)
    ensures DecodedGroup(EncodedGroup([a])) == Some([a])
  {
    hide Letter;
    hide Value;
    LetterValue(Letter(a / 4), a / 4);
    LetterValue(Letter(a % 4 * 16), a % 4 * 16);
  }

  lemma TwoOctetsBack(a: byte, b: byte)
    ensures 4 * (a / 4) + (a % 4 * 16 + b / 16) / 16 == a
    ensures (a % 4 * 16 + b / 16) % 16 * 16 + (b % 16 * 4) / 4 == b
  {
    assert (a % 4 * 16 + b / 16) / 16 == a % 4;
  }

  lemma GroupOfTwo(a: byte, b: byte)
    ensures DecodedGroup(EncodedGroup([a, b])) == Some([a, b])
  {
    hide Letter;
    hide Value;
    LetterValue(Letter(a / 4), a / 4);
    LetterValue(Letter(a % 4 * 16 + b / 16), a % 4 * 16 + b / 16);
    LetterValue(Letter(b % 16 * 4), b % 16 * 4);
    TwoOctetsBack(a, b);
  }

  lemma LastOctetsBack(b: byte, c: byte)
    ensures (b % 16 * 4 + c / 64) / 4 == b % 16
    ensures (b % 16 * 4 + c / 64) % 4 * 64 + c % 64 == c
  {
  }

  lemma GroupOfThree(a: byte, b: byte, c: byte)
    ensures DecodedGroup(EncodedGroup([a, b, c])) == Some([a, b, c])
  {
    hide Letter;
    hide Value;
    LetterValue(Letter(a / 4), a / 4);
    LetterValue(Letter(a % 4 * 16 + b / 16), a % 4 * 16 + b / 16);
    LetterValue(Letter(b % 16 * 4 + c / 64), b % 16 * 4 + c / 64);
    LetterValue(Letter(c % 64), c % 64);
    TwoOctetsBack(a, b);
    LastOctetsBack(b, c);
  }

  lemma GroupDecodes(g: seq<byte>)
    requires 1 <= |g| <= 3
    ensures DecodedGroup(EncodedGroup(g)) == Some(g)
  {
    hide EncodedGroup;
    hide DecodedGroup;
    if |g| == 1 {
      GroupOfOne(g[0]);
      assert g == [g[0]];
    } else if |g| == 2 {
      GroupOfTwo(g[0], g[1]);
      assert g == [g[0], g[1]];
    } else {
      GroupOfThree(g[0], g[1], g[2]);
      assert g == [g[0], g[1], g[2]];
    }
  }

  /** Two neighbouring letters come back from the octets their bits were spread over. */
  lemma SextetsBack(a: nat, b: nat, c: nat, d: nat)
    requires a < 64 && b < 64 && c < 64 && d < 64
    ensures (4 * a + b / 16) / 4 == a
    ensures (4 * a + b / 16) % 4 * 16 + (b % 16 * 16 + c / 4) / 16 == b
    ensures (b % 16 * 16 + c / 4) % 16 * 4 + (c % 4 * 64 + d) / 64 == c
    ensures (c % 4 * 64 + d) % 64 == d
    ensures b % 16 == 0 ==> (4 * a + b / 16) % 4 * 16 == b
    ensures c % 4 == 0 ==> (b % 16 * 16 + c / 4) % 16 * 4 == c
  {
    FirstTwoBack(a, b);
    assert (b % 16 * 16 + c / 4) / 16 == b % 16 && (b % 16 * 16 + c / 4) % 16 == c / 4;
    assert (c % 4 * 64 + d) / 64 == c % 4;
  }

  lemma FirstTwoBack(a: nat, b: nat)
    requires b < 64
    ensures (4 * a + b / 16) / 4 == a && (4 * a + b / 16) % 4 == b / 16
  {
  }

  lemma GroupEncodes(t: string)
    requires |t| == 4 && DecodedGroup(t).Some?
    ensures EncodedGroup(DecodedGroup(t).value) == t
  {
    hide Letter;
    hide Value;
    var a, b := Value(t[0]).value, Value(t[1]).value;
    LetterValue(t[0], a);
    LetterValue(t[1], b);
    if t[2] == '=' {
      SextetsBack(a, b, 0, 0);
    } else {
      var c := Value(t[2]).value;
      LetterValue(t[2], c);
      if t[3] == '=' {
        SextetsBack(a, b, c, 0);
      } else {
        LetterValue(t[3], Value(t[3]).value);
        SextetsBack(a, b, c, Value(t[3]).value);
      }
    }
  }

  lemma {:induction false} DecodeAfterEncode(s: seq<byte>)
    ensures Decoded(Encoded(s)) == Some(s)
  {
    hide EncodedGroup;
    hide DecodedGroup;
    if |s| > 3 {
      GroupDecodes(s[..3]);
      DecodeAfterEncode(s[3..]);
      var t := Encoded(s);
      assert t[..4] == EncodedGroup(s[..3]) && t[4..] == Encoded(s[3..]);
      assert s == s[..3] + s[3..];
    } else if |s| > 0 {
      GroupDecodes(s);
      assert Encoded(s)[..4] == Encoded(s);
    }
  }

  lemma {:induction false} EncodeAfterDecode(t: string)
    requires Decoded(t).Some?
    ensures Encoded(Decoded(t).value) == t
  {
    hide EncodedGroup;
    hide DecodedGroup;
    if |t| > 0 {
      GroupSize(t[..4]);
      GroupEncodes(t[..4]);
      assert t[..4] + t[4..] == t;
      if |t| > 4 {
        EncodeAfterDecode(t[4..]);
        NotEmpty(t[4..]);
        var s := Decoded(t).value;
        assert s[..3] == DecodedGroup(t[..4]).value && s[3..] == Decoded(t[4..]).value;
      }
    }
  }

  lemma GroupSize(t: string)
    requires |t| == 4 && DecodedGroup(t).Some?
    ensures 1 <= |DecodedGroup(t).value| <= 3
  {
  }

  lemma NotEmpty(t: string)
    requires |t| > 0 && Decoded(t).Some?
    ensures |Decoded(t).value| > 0
  {
    GroupSize(t[..4]);
  }

  /** The decoder accepts a text exactly when it is the encoding of what the decoder says it is. */
  lemma DecodesIff(t: string, s: seq<byte>)
    ensures Decoded(t) == Some(s) <==> Encoded(s) == t
  {
    DecodeAfterEncode(s);
    if Decoded(t).Some? { EncodeAfterDecode(t); }
  }

  /** Four letters for every three octets begun, and padding for the octets missing of the last three. */
  lemma {:induction false} LengthAndPadding(s: seq<byte>)
    ensures |Encoded(s)| == (|s| + 2) / 3 * 4
    ensures forall k :: 0 <= k < |Encoded(s)| ==> (Encoded(s)[k] == '=' <==> k >= |Encoded(s)| - (3 - |s| % 3) % 3)
  {
    hide EncodedGroup;
    if |s| > 3 {
      LengthAndPadding(s[3..]);
      GroupPadding(s[..3]);
    } else if |s| > 0 {
      GroupPadding(s);
    }
  }

  lemma GroupPadding(g: seq<byte>)
    requires 1 <= |g| <= 3
    ensures forall k :: 0 <= k < 4 ==> (EncodedGroup(g)[k] == '=' <==> k > |g|)
  {
  }

  /** Test vectors of section 10 of RFC 4648: "f", "fo" and "foobar". */
  lemma TestVectors()
    ensures Encoded([102]) == "Zg==" && Encoded([102, 111]) == "Zm8="
    ensures Encoded([102, 111, 111, 98, 97, 114]) == "Zm9vYmFy"
  {
    hide EncodedGroup;
    GroupVectors();
    var s: seq<byte> := [102, 111, 111, 98, 97, 114];
    assert s[..3] == [102, 111, 111] && s[3..] == [98, 97, 114];
    assert Encoded([98, 97, 114]) == "YmFy";
  }

  lemma GroupVectors()
    ensures EncodedGroup([102]) == "Zg==" && EncodedGroup([102, 111]) == "Zm8="
    ensures EncodedGroup([102, 111, 111]) == "Zm9v" && EncodedGroup([98, 97, 114]) == "YmFy"
  {
  }

  // ---------------------------------------------------------------- the encoder

  /** Past the end of the string charCodeAt yields NaN, which the bit operations take for zero. */
  function CodeAt(s: seq<Code>, i: nat): Code {
    if i < |s| then s[i] else 0
  }

  /** The 32-bit word of three code units; those above 255 run into each other. */
  function Word(o1: Code, o2: Code, o3: Code): nat {
    Or(Or(ShiftLeft(o1, 16), ShiftLeft(o2, 8)), o3)
  }

  function Sextet(word: nat, shift: nat): (h: nat)
    ensures h < 64
  {
    assert Pow2(6) == 64;
    AndOnes(ShiftRight(word, shift), 6);
    And(ShiftRight(word, shift), 0x3F)
  }

  function Hexets(o1: Code, o2: Code, o3: Code): (t: string)
    ensures |t| == 4
  {
    var word := Word(o1, o2, o3);
    [Letter(Sextet(word, 18)), Letter(Sextet(word, 12)), Letter(Sextet(word, 6)), Letter(Sextet(word, 0))]
  }

  /** The letters of every group of three, from i on. */
  function Groups(s: seq<Code>, i: nat): string
    decreases |s| - i
  {
    if i >= |s| then "" else Hexets(CodeAt(s, i), CodeAt(s, i + 1), CodeAt(s, i + 2)) + Groups(s, i + 3)
  }

  function Join(parts: seq<string>): string {
    if parts == [] then "" else Join(parts[..|parts| - 1]) + parts[|parts| - 1]
  }

  lemma {:induction false} GroupsLength(s: seq<Code>, i: nat)
    ensures i < |s| ==> |Groups(s, i)| >= 4
    decreases |s| - i
  {
  }

  /** The letters of whole groups, cut and padded for a string that leaves r code units over. */
  function Padded(letters: string, r: nat): string
    requires r < 3 && (r > 0 ==> |letters| >= 4)
  {
    if r == 0 then letters else letters[..|letters| - (3 - r)] + "==="[r..]
  }

  /** What the encoder returns: the last letters of an incomplete group make way for padding. */
  function Output(s: seq<Code>): string {
    GroupsLength(s, 0);
    Padded(Groups(s, 0), |s| % 3)
  }

  lemma LettersAreTheAlphabet(h: nat)
    requires h < 64
    ensures LETTERS[h] == Letter(h)
  {
    assert |LETTERS| == 65;
  }

  method Base64Encode(stringToEncode: seq<Code>) returns (r: string)
    ensures r == Output(stringToEncode)
  {
    hide Hexets;
    if |stringToEncode| == 0 {
      return "";
    }
    var tmpArr: seq<string>, i, more := [], 0, true;
    while more
      invariant more ==> i < |stringToEncode|
      invariant !more ==> i >= |stringToEncode|
      invariant Join(tmpArr) + Groups(stringToEncode, i) == Groups(stringToEncode, 0)
      decreases more, |stringToEncode| - i
    {
      var o1, o2, o3 := CodeAt(stringToEncode, i), CodeAt(stringToEncode, i + 1), CodeAt(stringToEncode, i + 2);
      ghost var before := Join(tmpArr);
      var group := PackGroup(o1, o2, o3);
      assert (tmpArr + [group])[..|tmpArr|] == tmpArr;
      tmpArr := tmpArr + [group];
      assert before + (group + Groups(stringToEncode, i + 3)) == (before + group) + Groups(stringToEncode, i + 3);
      i := i + 3;
      more := i < |stringToEncode|;
    }
    var enc := Join(tmpArr);
    assert enc + "" == enc;
    GroupsLength(stringToEncode, 0);
    var rest := |stringToEncode| % 3;
    r := (if rest != 0 then enc[..|enc| + rest - 3] else enc) + "==="[if rest != 0 then rest else 3..];
  }

  /** The body of the loop: three octets into four hexets. */
  method PackGroup(o1: Code, o2: Code, o3: Code) returns (group: string)
    ensures group == Hexets(o1, o2, o3)
  {
    var bits := Or(Or(ShiftLeft(o1, 16), ShiftLeft(o2, 8)), o3);
    var h1 := Sextet(bits, 18);
    var h2 := Sextet(bits, 12);
    var h3 := Sextet(bits, 6);
    var h4 := Sextet(bits, 0);
    LettersAreTheAlphabet(h1);
    LettersAreTheAlphabet(h2);
    LettersAreTheAlphabet(h3);
    LettersAreTheAlphabet(h4);
    group := [LETTERS[h1], LETTERS[h2], LETTERS[h3], LETTERS[h4]];
  }

  // ---------------------------------------------------------------- what it encodes

  /** The low 24 bits of a word. */
  function WordOctets(word: nat): (g: seq<byte>)
    ensures |g| == 3
  {
    [word / 0x10000 % 256, word / 0x100 % 256, word % 256]
  }

  /** The octets whose encoding comes out, from every three code units. */
  function OctetsOf(s: seq<Code>, i: nat): seq<byte>
    decreases |s| - i
  {
    if i >= |s| then [] else
    var octets := WordOctets(Word(CodeAt(s, i), CodeAt(s, i + 1), CodeAt(s, i + 2)));
    if |s| - i < 3 then octets[..|s| - i] else octets + OctetsOf(s, i + 3)
  }

  lemma SextetIs(word: nat, shift: nat, p: nat)
    requires Pow2(shift) == p
    ensures Sextet(word, shift) == word / p % 64
  {
    hide And;
    hide ShiftRight;
    assert Pow2(6) == 64;
    AndOnes(ShiftRight(word, shift), 6);
    ShiftRightDivides(word, shift);
  }

  lemma Powers()
    ensures Pow2(0) == 1 && Pow2(6) == 64 && Pow2(8) == 0x100 && Pow2(12) == 0x1000
    ensures Pow2(16) == 0x10000 && Pow2(18) == 0x40000
  {
    assert Pow2(18) == 4 * Pow2(16) && Pow2(16) == 16 * Pow2(12) && Pow2(12) == 16 * Pow2(8) by {
      assert Pow2(18) == 2 * Pow2(17) && Pow2(16) == 2 * Pow2(15) && Pow2(15) == 2 * Pow2(14);
      assert Pow2(14) == 2 * Pow2(13) && Pow2(12) == 2 * Pow2(11) && Pow2(11) == 2 * Pow2(10);
      assert Pow2(10) == 2 * Pow2(9);
    }
  }

  lemma FirstSextet(t: nat, x: byte, y: byte, z: byte)
    ensures (0x1000000 * t + 0x10000 * x + 0x100 * y + z) / 0x40000 % 64 == x / 4
  {
    Quotient(0x1000000 * t + 0x10000 * x + 0x100 * y + z, 0x40000, 64 * t + x / 4, x % 4 * 0x10000 + 0x100 * y + z);
  }

  lemma SecondSextet(t: nat, x: byte, y: byte, z: byte)
    ensures (0x1000000 * t + 0x10000 * x + 0x100 * y + z) / 0x1000 % 64 == x % 4 * 16 + y / 16
  {
    Quotient(0x1000000 * t + 0x10000 * x + 0x100 * y + z, 0x1000, 0x1000 * t + 16 * x + y / 16, y % 16 * 0x100 + z);
    Quotient(0x1000 * t + 16 * x + y / 16, 64, 64 * t + x / 4, x % 4 * 16 + y / 16);
  }

  lemma ThirdSextet(t: nat, x: byte, y: byte, z: byte)
    ensures (0x1000000 * t + 0x10000 * x + 0x100 * y + z) / 64 % 64 == y % 16 * 4 + z / 64
  {
    Quotient(0x1000000 * t + 0x10000 * x + 0x100 * y + z, 64, 0x40000 * t + 0x400 * x + 4 * y + z / 64, z % 64);
    Quotient(0x40000 * t + 0x400 * x + 4 * y + z / 64, 64, 0x1000 * t + 0x10 * x + y / 16, y % 16 * 4 + z / 64);
  }

  lemma LastSextet(t: nat, x: byte, y: byte, z: byte)
    ensures (0x1000000 * t + 0x10000 * x + 0x100 * y + z) % 64 == z % 64
  {
    Quotient(0x1000000 * t + 0x10000 * x + 0x100 * y + z, 64, 0x40000 * t + 0x400 * x + 4 * y + z / 64, z % 64);
  }

  lemma OctetsMakeWord(word: nat)
    ensures var x: nat, y: nat, z: nat := WordOctets(word)[0], WordOctets(word)[1], WordOctets(word)[2];
            word == 0x1000000 * (word / 0x1000000) + 0x10000 * x + 0x100 * y + z
  {
    Quotient(word, 0x10000, word / 0x100 / 0x100, word / 0x100 % 0x100 * 0x100 + word % 0x100);
    Quotient(word, 0x1000000, word / 0x10000 / 0x100, word / 0x10000 % 0x100 * 0x10000 + word % 0x10000);
  }

  /** The four sextets of a word, as the standard takes them from three octets. */
  lemma WordHexets(word: nat)
    ensures var g := WordOctets(word);
            && Sextet(word, 18) == g[0] / 4
            && Sextet(word, 12) == g[0] % 4 * 16 + g[1] / 16
            && Sextet(word, 6) == g[1] % 16 * 4 + g[2] / 64
            && Sextet(word, 0) == g[2] % 64
  {
    hide Sextet;
    hide WordOctets;
    Powers();
    SextetIs(word, 18, 0x40000);
    SextetIs(word, 12, 0x1000);
    SextetIs(word, 6, 64);
    SextetIs(word, 0, 1);
    OctetsMakeWord(word);
    var t, g := word / 0x1000000, WordOctets(word);
    FirstSextet(t, g[0], g[1], g[2]);
    SecondSextet(t, g[0], g[1], g[2]);
    ThirdSextet(t, g[0], g[1], g[2]);
    LastSextet(t, g[0], g[1], g[2]);
  }

  /** Nothing is added to the right of the last code unit of a short group. */
  lemma ShortWord(o1: Code, o2: Code)
    ensures Word(o1, o2, 0) % 0x100 == 0
    ensures Word(o1, 0, 0) % 0x10000 == 0
  {
    hide Or;
    hide ShiftLeft;
    Powers();
    var high := Or(ShiftLeft(o1, 8), o2);
    OrOfShifted(ShiftLeft(o1, 8), o2, 8);
    ShiftTwice(o1);
    ShiftLeftMultiplies(high, 8);
    OrZero(ShiftLeft(high, 8));
    ShiftLeftMultiplies(0, 8);
    ShiftLeftMultiplies(o1, 16);
    OrZero(ShiftLeft(o1, 16));
  }

  lemma ShiftTwice(a: nat)
    ensures ShiftLeft(ShiftLeft(a, 8), 8) == ShiftLeft(a, 16)
  {
    hide ShiftLeft;
    Powers();
    ShiftLeftMultiplies(a, 8);
    ShiftLeftMultiplies(a, 16);
    ShiftLeftMultiplies(ShiftLeft(a, 8), 8);
  }

  lemma {:induction false} OrOfShifted(a: nat, b: nat, k: nat)
    ensures Or(ShiftLeft(a, k), ShiftLeft(b, k)) == ShiftLeft(Or(a, b), k)
  {
    if k > 0 {
      ShiftLeftOut(a, k - 1);
      ShiftLeftOut(b, k - 1);
      ShiftLeftOut(Or(a, b), k - 1);
      OrOfShifted(a, b, k - 1);
    }
  }

  /** Octets side by side do not run into each other. */
  lemma WordOfOctets(x: byte, y: byte, z: byte)
    ensures Word(x, y, z) == 0x10000 * x + 0x100 * y + z
  {
    hide Or;
    hide ShiftLeft;
    Powers();
    ShiftTwice(x);
    OrOfShifted(ShiftLeft(x, 8), y, 8);
    OrDisjoint(x, y, 8);
    ShiftLeftMultiplies(x, 8);
    var high := ShiftLeft(x, 8) + y;
    OrDisjoint(high, z, 8);
    ShiftLeftMultiplies(high, 8);
  }

  lemma FullGroup(o1: Code, o2: Code, o3: Code)
    ensures EncodedGroup(WordOctets(Word(o1, o2, o3))) == Hexets(o1, o2, o3)
  {
    hide Letter;
    hide Sextet;
    hide Word;
    hide WordOctets;
    WordHexets(Word(o1, o2, o3));
  }

  lemma GroupOfTwoUnits(o1: Code, o2: Code)
    ensures EncodedGroup(WordOctets(Word(o1, o2, 0))[..2]) == Hexets(o1, o2, 0)[..3] + "==="[2..]
  {
    hide Letter;
    hide Sextet;
    hide Word;
    hide WordOctets;
    WordHexets(Word(o1, o2, 0));
    EmptyOctets(o1, o2);
  }

  lemma GroupOfOneUnit(o1: Code)
    ensures EncodedGroup(WordOctets(Word(o1, 0, 0))[..1]) == Hexets(o1, 0, 0)[..2] + "==="[1..]
  {
    hide Letter;
    hide Sextet;
    hide Word;
    hide WordOctets;
    WordHexets(Word(o1, 0, 0));
    EmptyOctets(o1, 0);
  }

  lemma EmptyOctets(o1: Code, o2: Code)
    ensures WordOctets(Word(o1, o2, 0))[2] == 0
    ensures WordOctets(Word(o1, 0, 0))[1] == 0
  {
    hide Word;
    ShortWord(o1, o2);
    var high := Word(o1, 0, 0) / 0x10000;
    assert Word(o1, 0, 0) == 0x10000 * high;
    assert Word(o1, 0, 0) / 0x100 == 0x100 * high;
  }

  lemma LastGroup(s: seq<Code>, i: nat)
    requires i < |s| <= i + 3
    ensures |Groups(s, i)| == 4
    ensures Encoded(OctetsOf(s, i)) == Padded(Groups(s, i), (|s| - i) % 3)
  {
    hide Hexets;
    hide EncodedGroup;
    hide WordOctets;
    hide Word;
    var o1, o2, o3 := CodeAt(s, i), CodeAt(s, i + 1), CodeAt(s, i + 2);
    var g := WordOctets(Word(o1, o2, o3));
    assert Groups(s, i) == Hexets(o1, o2, o3);
    if |s| == i + 3 {
      FullGroup(o1, o2, o3);
      assert g + [] == g;
    } else if |s| == i + 2 {
      GroupOfTwoUnits(o1, o2);
      assert OctetsOf(s, i) == g[..2] && (|s| - i) % 3 == 2;
    } else {
      GroupOfOneUnit(o1);
      assert OctetsOf(s, i) == g[..1] && (|s| - i) % 3 == 1;
    }
  }

  lemma EncodedMore(g: seq<byte>, rest: seq<byte>)
    requires |g| == 3 && |rest| > 0
    ensures Encoded(g + rest) == EncodedGroup(g) + Encoded(rest)
  {
    assert (g + rest)[..3] == g && (g + rest)[3..] == rest;
  }

  lemma PaddedMore(group: string, letters: string, r: nat)
    requires r < 3 && |letters| >= 4
    ensures Padded(group + letters, r) == group + Padded(letters, r)
  {
  }

  lemma UnfoldGroup(s: seq<Code>, i: nat)
    requires i + 3 < |s|
    ensures var word := Word(s[i], s[i + 1], s[i + 2]);
            Groups(s, i) == Hexets(s[i], s[i + 1], s[i + 2]) + Groups(s, i + 3) &&
            OctetsOf(s, i) == WordOctets(word) + OctetsOf(s, i + 3)
  {
    hide Hexets;
    hide WordOctets;
    hide Word;
  }

  /** Padded as it is, the output is the standard's encoding of those octets. */
  lemma {:induction false} GroupsEncode(s: seq<Code>, i: nat)
    requires i < |s|
    ensures |Groups(s, i)| >= 4
    ensures Encoded(OctetsOf(s, i)) == Padded(Groups(s, i), (|s| - i) % 3)
    decreases |s| - i
  {
    hide Hexets;
    hide EncodedGroup;
    hide Encoded;
    hide WordOctets;
    hide Word;
    hide Padded;
    hide Groups;
    hide OctetsOf;
    if |s| <= i + 3 {
      LastGroup(s, i);
    } else {
      UnfoldGroup(s, i);
      FullGroup(s[i], s[i + 1], s[i + 2]);
      GroupsEncode(s, i + 3);
      OctetsNotEmpty(s, i + 3);
      EncodedMore(WordOctets(Word(s[i], s[i + 1], s[i + 2])), OctetsOf(s, i + 3));
      PaddedMore(Hexets(s[i], s[i + 1], s[i + 2]), Groups(s, i + 3), (|s| - i) % 3);
    }
  }

  lemma OctetsNotEmpty(s: seq<Code>, i: nat)
    requires i < |s|
    ensures |OctetsOf(s, i)| > 0
  {
  }

  lemma OctetsOfWord(x: byte, y: byte, z: byte)
    ensures WordOctets(Word(x, y, z)) == [x, y, z]
  {
    hide Word;
    WordOfOctets(x, y, z);
    Quotient(0x10000 * x + 0x100 * y + z, 0x10000, x, 0x100 * y + z);
    Quotient(0x10000 * x + 0x100 * y + z, 0x100, 0x100 * x + y, z);
    assert (0x100 * x + y) % 256 == y;
  }

  lemma {:induction false} OctetsMatch(s: seq<Code>, i: nat)
    requires i <= |s| && forall k :: i <= k < |s| ==> s[k] < 256
    ensures OctetsOf(s, i) == s[i..]
    decreases |s| - i
  {
    hide Word;
    hide WordOctets;
    if i < |s| {
      OctetsOfWord(CodeAt(s, i), CodeAt(s, i + 1), CodeAt(s, i + 2));
      if |s| - i >= 3 {
        OctetsMatch(s, i + 3);
        assert s[i..] == [s[i], s[i + 1], s[i + 2]] + s[i + 3..];
      }
    }
  }

  predicate AreOctets(s: seq<Code>) {
    forall k :: 0 <= k < |s| ==> s[k] < 256
  }

  lemma OutputEncodes(s: seq<Code>)
    ensures Output(s) == Encoded(OctetsOf(s, 0))
  {
    if |s| > 0 { GroupsEncode(s, 0); }
  }

  /** The output is always some base64 text, and it decodes to the input exactly if that was octets. */
  lemma DecodesToInputIff(s: seq<Code>)
    ensures Decoded(Output(s)).Some?
    ensures Decoded(Output(s)).value == s <==> AreOctets(s)
  {
    OutputEncodes(s);
    DecodeAfterEncode(OctetsOf(s, 0));
    if AreOctets(s) { OctetsMatch(s, 0); assert s[0..] == s; }
  }

  /** On strings of octets the encoder is the standard's, and no two of them come out the same. */
  lemma OctetStringsStayApart(s: seq<Code>, s': seq<Code>)
    requires AreOctets(s) && AreOctets(s')
    ensures Output(s) == Output(s') <==> s == s'
  {
    DecodesToInputIff(s);
    DecodesToInputIff(s');
  }

  /** Beyond octets they do: U+0100 is encoded as U+0000 is. */
  lemma NotInjective()
    ensures Output([0x100]) == Output([0]) == Encoded([0])
  {
    hide Word;
    hide Encoded;
    hide Output;
    LoneWord(0x100);
    LoneWord(0);
    OutputEncodes([0x100]);
    OutputEncodes([0]);
    assert OctetsOf([0x100], 0) == [0] == OctetsOf([0], 0);
  }

  lemma LoneWord(c: Code)
    ensures Word(c, 0, 0) == 0x10000 * c
  {
    hide Or;
    hide ShiftLeft;
    Powers();
    ShiftLeftMultiplies(c, 16);
    ShiftLeftMultiplies(0, 8);
    OrZero(ShiftLeft(c, 16));
  }
}
