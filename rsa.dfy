/** The toy textbook-RSA codec of rsa_encryption.py, and of its two JavaScript
    halves: server1.js encrypts, server2.js decrypts.

    Letters are numbered A..Z = 1..26 (any other character is 0, a space), two
    numbers are packed into one block m = num1 * 100 + num2, and each block is
    encrypted with the raw RSA primitive c = m^17 mod 3233 and decrypted with
    m = c^2753 mod 3233 (RSAEP and RSADP of RFC 8017, sections 5.1.1 and 5.1.2,
    with no padding). */
module Rsa {
  import opened NumberTheory

  /** The public modulus n = 61 * 53. */
  const N: int := 3233
  /** The public exponent e. */
  const E: nat := 17
  /** The private exponent d. */
  const D: nat := 2753

  // ---------------------------------------------------------------------------
  // Square-and-multiply

  /** Modular exponentiation by repeated squaring: mod_pow in rsa_encryption.py,
      modPow in server1.js and server2.js.  A non-positive exponent runs no
      iteration and yields 1, even when mod == 1. */
  method ModPow(base: int, exp: int, mod: int) returns (result: int)
    requires mod > 0
    ensures exp <= 0 ==> result == 1
    ensures exp > 0 ==> result == Pow(base, exp) % mod
    ensures exp > 0 ==> 0 <= result < mod
  {
    result := 1;
    var b := base % mod;
    var e := exp;
    ModPowStart(base, exp, mod);
    while e > 0
      invariant ModPowInvariant(base, exp, mod, result, b, e)
    {
      ModPowStep(base, exp, mod, result, b, e);
      if e % 2 == 1 {
        result := (result * b) % mod;
      }
      e := e / 2;
      b := (b * b) % mod;
    }
    ModPowEnd(base, exp, mod, result, b, e);
  }

  /** What the loop of ModPow keeps: result * b^e is base^exp modulo mod, and the
      result is reduced once the exponent is used up. */
  predicate ModPowInvariant(base: int, exp: int, mod: int, result: int, b: int, e: int)
  {
    mod > 0 && 0 <= b < mod && e <= exp
    && (exp > 0 && e == 0 ==> 0 <= result < mod)
    && (exp > 0 ==> e >= 0 && (result * Pow(b, e)) % mod == Pow(base, exp) % mod)
    && (exp <= 0 ==> result == 1)
  }

  lemma ModPowStart(base: int, exp: int, mod: int)
    requires mod > 0
    ensures ModPowInvariant(base, exp, mod, 1, base % mod, exp)
  {
    if exp > 0 {
      PowModBase(base, exp, mod);
    }
  }

  lemma ModPowStep(base: int, exp: int, mod: int, result: int, b: int, e: int)
    requires ModPowInvariant(base, exp, mod, result, b, e) && e > 0
    ensures ModPowInvariant(base, exp, mod, if e % 2 == 1 then (result * b) % mod else result,
                            (b * b) % mod, e / 2)
  {
    SquareAndMultiplyStep(result, b, e, mod);
  }

  lemma ModPowEnd(base: int, exp: int, mod: int, result: int, b: int, e: int)
    requires ModPowInvariant(base, exp, mod, result, b, e) && e <= 0
    ensures exp <= 0 ==> result == 1
    ensures exp > 0 ==> result == Pow(base, exp) % mod && 0 <= result < mod
  {
    if exp > 0 {
      assert e == 0 && Pow(b, 0) == 1;
      assert result * Pow(b, e) == result;
      ModUnique(result, 0, result, mod);
    }
  }

  /** One iteration of the loop of ModPow keeps result * b^e unchanged modulo mod. */
  lemma SquareAndMultiplyStep(result: int, b: int, e: nat, mod: int)
    requires mod > 0 && e > 0
    ensures var r' := if e % 2 == 1 then (result * b) % mod else result;
            (r' * Pow((b * b) % mod, e / 2)) % mod == (result * Pow(b, e)) % mod
  {
    var h := e / 2;
    var q := Pow((b * b) % mod, h);
    var sq := Pow(b * b, h);
    PowModBase(b * b, h, mod);
    PowSquare(b, h);
    if e % 2 == 1 {
      PowAdd(b, 1, 2 * h);
      OddStep(result, b, q, sq, Pow(b, e), mod);
    } else {
      MulModCongruent(result, q, sq, mod);
    }
  }

  lemma OddStep(r: int, b: int, q: int, sq: int, power: int, mod: int)
    requires mod > 0 && q % mod == sq % mod && power == b * sq
    ensures (((r * b) % mod) * q) % mod == (r * power) % mod
  {
    var rb := r * b;
    MulModLeft(rb, q, mod);
    MulModCongruent(rb, q, sq, mod);
    MulAssociative(r, b, sq);
  }

  lemma MulModLeft(x: int, y: int, n: int)
    requires n > 0
    ensures ((x % n) * y) % n == (x * y) % n
  {
    var a := x % n;
    ModUnique(a, 0, a, n);
    ModMul(a, y, n);
    ModMul(x, y, n);
  }

  lemma MulModCongruent(x: int, y: int, z: int, n: int)
    requires n > 0 && y % n == z % n
    ensures (x * y) % n == (x * z) % n
  {
    ModMul(x, y, n);
    ModMul(x, z, n);
  }

  /** server1.js and server2.js compute with IEEE doubles, which are exact on
      integers below 2^53.  Every product modPow forms multiplies two numbers
      below the modulus 3233, so it stays far below that bound. */
  lemma ModPowProductsExact(x: int, y: int)
    requires 0 <= x < N && 0 <= y < N
    ensures 0 <= x * y < 0x20_0000_0000_0000
  {
    MulMonotone(x, y, N);
    MulMonotone(N, x, N);
  }

  /** Encrypting a block: m^e mod n. */
  function EncryptBlock(m: int): int
  {
    Pow(m, E) % N
  }

  /** Decrypting a block: c^d mod n. */
  function DecryptBlock(c: int): int
  {
    Pow(c, D) % N
  }

  /** Decryption inverts encryption on every block value below the modulus. */
  lemma BlockRoundTrip(m: int)
    requires 0 <= m < N
    ensures DecryptBlock(EncryptBlock(m)) == m
  {
    PowModBase(Pow(m, E), D, N);
    PowMul(m, E, D);
    RsaExponentIdentity(m);
  }

  // ---------------------------------------------------------------------------
  // Letters and numbers

  predicate IsAsciiLetter(c: char)
  {
    'A' <= c <= 'Z' || 'a' <= c <= 'z'
  }

  /** str.upper() / toUpperCase() restricted to ASCII. */
  function Upper(c: char): char
  {
    if 'a' <= c <= 'z' then (c as int - 32) as char else c
  }

  /** Lower-casing of ASCII capitals. */
  function Lower(c: char): char
  {
    if 'A' <= c <= 'Z' then (c as int + 32) as char else c
  }

  /** letter_to_number / letterToNumber: A..Z and a..z give 1..26, everything
      else (the space included) gives 0. */
  function LetterToNumber(letter: char): (r: int)
    ensures 0 <= r <= 26
    ensures r > 0 <==> IsAsciiLetter(letter)
  {
    var u := Upper(letter);
    if u == ' ' then 0
    else
      var code := u as int;
      if 65 <= code <= 90 then code - 64 else 0
  }

  /** number_to_letter in rsa_encryption.py: 0 is a space, 1..26 are A..Z,
      anything else is '?'. */
  function NumberToLetter(num: int): (c: char)
    ensures c == ' ' <==> num == 0
    ensures 'A' <= c <= 'Z' <==> 1 <= num <= 26
    ensures c == '?' <==> (num < 0 || num > 26)
  {
    if num == 0 then ' '
    else if 1 <= num <= 26 then (64 + num) as char
    else '?'
  }

  /** numberToLetter in server2.js: like NumberToLetter but in lower case. */
  function NumberToLetterLower(num: int): (c: char)
    ensures c == Lower(NumberToLetter(num))
  {
    if num == 0 then ' '
    else if 1 <= num <= 26 then (96 + num) as char
    else '?'
  }

  /** What a character becomes after encoding and decoding: a letter in upper
      case, anything else a space. */
  function NormalizeChar(c: char): char
  {
    if IsAsciiLetter(c) then Upper(c) else ' '
  }

  /** Numbering a letter and naming the number gives the letter in upper case;
      every other character comes back as a space. */
  lemma LetterRoundTrip(c: char)
    ensures NumberToLetter(LetterToNumber(c)) == NormalizeChar(c)
  {
  }

  /** Both namings of the numbers 1..26 are numbered back to the same number. */
  lemma NumberRoundTrip(num: int)
    requires 1 <= num <= 26
    ensures LetterToNumber(NumberToLetter(num)) == num
    ensures LetterToNumber(NumberToLetterLower(num)) == num
  {
  }

  /** Two letters packed into one block: num1 * 100 + num2. */
  function Pack(c1: char, c2: char): (m: int)
    ensures 0 <= m <= 2626 < N
    ensures m / 100 == LetterToNumber(c1) && m % 100 == LetterToNumber(c2)
  {
    LetterToNumber(c1) * 100 + LetterToNumber(c2)
  }

  // ---------------------------------------------------------------------------
  // Whole messages

  /** An odd-length message gets one trailing space. */
  function Pad(message: string): (p: string)
    ensures |p| % 2 == 0 && |p| == 2 * ((|message| + 1) / 2)
    ensures p[..|message|] == message
    ensures forall i :: |message| <= i < |p| ==> p[i] == ' '
  {
    if |message| % 2 != 0 then message + " " else message
  }

  /** The blocks produced for an even-length text, pair by pair. */
  function EncryptPairs(s: string): (blocks: seq<int>)
    requires |s| % 2 == 0
    ensures |blocks| == |s| / 2
    ensures forall k :: 0 <= k < |blocks| ==> 0 <= blocks[k] < N
  {
    if s == [] then []
    else EncryptPairs(s[..|s| - 2]) + [EncryptBlock(Pack(s[|s| - 2], s[|s| - 1]))]
  }

  /** The two characters one block decrypts to. */
  function PairText(c: int, lowercase: bool): string
  {
    var m := DecryptBlock(c);
    if lowercase then [NumberToLetterLower(m / 100), NumberToLetterLower(m % 100)]
    else [NumberToLetter(m / 100), NumberToLetter(m % 100)]
  }

  /** The text the decryption loop builds before trimming; server2.js uses lower case. */
  function DecryptPairs(blocks: seq<int>, lowercase: bool): (s: string)
    ensures |s| == 2 * |blocks|
  {
    if blocks == [] then ""
    else DecryptPairs(blocks[..|blocks| - 1], lowercase) + PairText(blocks[|blocks| - 1], lowercase)
  }

  function Normalize(s: string): (r: string)
  {
    seq(|s|, i requires 0 <= i < |s| => NormalizeChar(s[i]))
  }

  function LowerAll(s: string): string
  {
    seq(|s|, i requires 0 <= i < |s| => Lower(s[i]))
  }

  function UpperAll(s: string): string
  {
    seq(|s|, i requires 0 <= i < |s| => Upper(s[i]))
  }

  /** The number of spaces s starts with. */
  function LeadingSpaces(s: string): (n: nat)
    ensures n <= |s|
  {
    if s != [] && s[0] == ' ' then 1 + LeadingSpaces(s[1..]) else 0
  }

  /** LeadingSpaces counts the whole run of spaces at the start of s. */
  lemma {:induction false} LeadingSpacesRun(s: string)
    ensures var n := LeadingSpaces(s);
      (forall k :: 0 <= k < n ==> s[k] == ' ') && (n < |s| ==> s[n] != ' ')
    decreases |s|
  {
    if s != [] && s[0] == ' ' {
      LeadingSpacesRun(s[1..]);
    }
  }

  /** The number of spaces s ends with. */
  function TrailingSpaces(s: string): (n: nat)
    ensures n <= |s|
  {
    if s != [] && s[|s| - 1] == ' ' then 1 + TrailingSpaces(s[..|s| - 1]) else 0
  }

  /** TrailingSpaces counts the whole run of spaces at the end of s. */
  lemma {:induction false} TrailingSpacesRun(s: string)
    ensures var n := TrailingSpaces(s);
      (forall k :: |s| - n <= k < |s| ==> s[k] == ' ') && (n < |s| ==> s[|s| - 1 - n] != ' ')
    decreases |s|
  {
    if s != [] && s[|s| - 1] == ' ' {
      TrailingSpacesRun(s[..|s| - 1]);
    }
  }

  /** str.strip() and String.prototype.trim() on texts whose only whitespace
      character is the space. */
  function Strip(s: string): string
  {
    var i := LeadingSpaces(s);
    s[i..|s| - TrailingSpaces(s[i..])]
  }

  /** Strip keeps the longest slice that neither starts nor ends with a space,
      and drops only spaces around it. */
  lemma StripTrims(s: string)
    ensures var r := Strip(s);
      exists i, j ::
        && 0 <= i <= j <= |s| && r == s[i..j]
        && (forall k :: 0 <= k < i ==> s[k] == ' ')
        && (forall k :: j <= k < |s| ==> s[k] == ' ')
    ensures var r := Strip(s);
      r == [] || (r[0] != ' ' && r[|r| - 1] != ' ')
  {
    var i := LeadingSpaces(s);
    var t := s[i..];
    var n := TrailingSpaces(t);
    LeadingSpacesRun(s);
    TrailingSpacesRun(t);
    var j := |s| - n;
    assert Strip(s) == s[i..j];
    assert forall k :: j <= k < |s| ==> s[k] == ' ' by {
      assert forall k :: j <= k < |s| ==> s[k] == t[k - i];
    }
  }

  /** encrypt_message (rsa_encryption.py) and encryptMessage (server1.js):
      pad to even length, then encrypt two letters at a time. */
  method EncryptMessage(message: string) returns (encrypted: seq<int>)
    ensures encrypted == EncryptPairs(Pad(message))
    ensures |encrypted| == (|message| + 1) / 2
    ensures forall k :: 0 <= k < |encrypted| ==> 0 <= encrypted[k] < N
  {
    encrypted := [];
    var msg := message;
    if |msg| % 2 != 0 {
      msg := msg + " ";
    }
    assert msg == Pad(message);
    var i := 0;
    while i < |msg|
      invariant 0 <= i <= |msg| && i % 2 == 0 && |msg| % 2 == 0
      invariant encrypted == EncryptPairs(msg[..i])
    {
      var letter1 := msg[i];
      var letter2 := msg[i + 1];
      var num1 := LetterToNumber(letter1);
      var num2 := LetterToNumber(letter2);
      var m := num1 * 100 + num2;
      assert m == Pack(letter1, letter2);
      var c := ModPow(m, E, N);
      assert c == EncryptBlock(m);
      EncryptPairsStep(msg, i);
      encrypted := encrypted + [c];
      i := i + 2;
    }
    assert msg[..|msg|] == msg;
  }

  lemma EncryptPairsStep(s: string, i: int)
    requires |s| % 2 == 0 && i % 2 == 0 && 0 <= i < |s|
    ensures EncryptPairs(s[..i + 2]) == EncryptPairs(s[..i]) + [EncryptBlock(Pack(s[i], s[i + 1]))]
  {
    var p := s[..i + 2];
    assert p[..|p| - 2] == s[..i];
  }

  /** The decryption loop shared by decrypt_message and decryptMessage. */
  method DecryptPairsLoop(blocks: seq<int>, lowercase: bool) returns (text: string)
    ensures text == DecryptPairs(blocks, lowercase)
  {
    text := "";
    for k := 0 to |blocks|
      invariant text == DecryptPairs(blocks[..k], lowercase)
    {
      var c := blocks[k];
      var m := ModPow(c, D, N);
      var letter1Num := m / 100;
      var letter2Num := m % 100;
      if lowercase {
        text := text + [NumberToLetterLower(letter1Num), NumberToLetterLower(letter2Num)];
      } else {
        text := text + [NumberToLetter(letter1Num), NumberToLetter(letter2Num)];
      }
      assert blocks[..k + 1][..k] == blocks[..k];
    }
    assert blocks[..|blocks|] == blocks;
  }

  /** decrypt_message in rsa_encryption.py. */
  method DecryptMessage(blocks: seq<int>) returns (decrypted: string)
    ensures decrypted == Strip(DecryptPairs(blocks, false))
  {
    var text := DecryptPairsLoop(blocks, false);
    decrypted := Strip(text);
  }

  /** decryptMessage in server2.js. */
  method DecryptMessageJs(blocks: seq<int>) returns (decrypted: string)
    ensures decrypted == Strip(DecryptPairs(blocks, true))
  {
    var text := DecryptPairsLoop(blocks, true);
    decrypted := Strip(text);
  }

  // ---------------------------------------------------------------------------
  // Round trips

  /** Decrypting the blocks of an even-length text gives back its normalised form. */
  lemma {:induction false} PairsRoundTrip(s: string)
    requires |s| % 2 == 0
    ensures DecryptPairs(EncryptPairs(s), false) == Normalize(s)
    decreases |s|
  {
    if s != [] {
      var t := s[..|s| - 2];
      PairsRoundTrip(t);
      var blocks := EncryptPairs(s);
      var m := Pack(s[|s| - 2], s[|s| - 1]);
      assert blocks[..|blocks| - 1] == EncryptPairs(t);
      assert PairText(blocks[|blocks| - 1], false) == [NormalizeChar(s[|s| - 2]), NormalizeChar(s[|s| - 1])] by {
        BlockRoundTrip(m);
        LetterRoundTrip(s[|s| - 2]);
        LetterRoundTrip(s[|s| - 1]);
      }
      NormalizeLastPair(s);
    }
  }

  /** Normalize works character by character, so on the last two as well. */
  lemma NormalizeLastPair(s: string)
    requires |s| >= 2
    ensures Normalize(s) == Normalize(s[..|s| - 2]) + [NormalizeChar(s[|s| - 2]), NormalizeChar(s[|s| - 1])]
  {
  }

  /** Trailing padding spaces do not survive the strip. */
  lemma StripTrailingSpace(t: string)
    ensures Strip(t + " ") == Strip(t)
  {
    var s := t + " ";
    LeadingSpacesAppendSpace(t);
    var i := LeadingSpaces(t);
    if i < |t| {
      var u := t[i..];
      var n := TrailingSpaces(u);
      assert TrailingSpaces(s[i..]) == n + 1 by {
        assert s[i..] == u + " ";
        assert (u + " ")[..|u|] == u;
      }
      StripByCounts(s, i, n + 1);
      StripByCounts(t, i, n);
      assert s[i..|s| - (n + 1)] == t[i..|t| - n];
    } else {
      StripByCounts(s, |s|, 0);
      StripByCounts(t, |t|, 0);
    }
  }

  lemma {:induction false} LeadingSpacesAppendSpace(t: string)
    ensures LeadingSpaces(t + " ") == if LeadingSpaces(t) == |t| then |t| + 1 else LeadingSpaces(t)
    decreases |t|
  {
    if t != [] && t[0] == ' ' {
      assert (t + " ")[1..] == t[1..] + " ";
      LeadingSpacesAppendSpace(t[1..]);
    }
  }

  /** decrypt_message(encrypt_message(s)) is s with letters upper-cased, every
      other character turned into a space, and the surrounding spaces stripped. */
  lemma RoundTrip(message: string)
    ensures Strip(DecryptPairs(EncryptPairs(Pad(message)), false)) == Strip(Normalize(message))
  {
    PairsRoundTrip(Pad(message));
    if |message| % 2 != 0 {
      assert Normalize(Pad(message)) == Normalize(message) + " ";
      StripTrailingSpace(Normalize(message));
    } else {
      assert Pad(message) == message;
    }
  }

  /** For a message of letters and spaces only, the decrypted text is exactly
      message.upper().strip(), the value the program's verification line prints
      as a match. */
  lemma RoundTripOfLettersAndSpaces(message: string)
    requires forall i :: 0 <= i < |message| ==> IsAsciiLetter(message[i]) || message[i] == ' '
    ensures Strip(DecryptPairs(EncryptPairs(Pad(message)), false)) == Strip(UpperAll(message))
  {
    RoundTrip(message);
    assert Normalize(message) == UpperAll(message);
  }

  /** The verification line of rsa_encryption.py compares the decrypted text
      with message.upper().strip(); for "A1" the round trip yields "A" while
      that comparison expects "A1", so the program prints "Match: False". */
  lemma VerificationLineMismatch()
    ensures Strip(DecryptPairs(EncryptPairs(Pad("A1")), false)) == "A"
    ensures Strip(UpperAll("A1")) == "A1"
  {
    RoundTrip("A1");
    NormalizedA1();
    UpperA1();
  }

  lemma NormalizedA1()
    ensures Strip(Normalize("A1")) == "A"
  {
    assert Normalize("A1") == "A ";
    assert LeadingSpaces("A ") == 0;
    assert TrailingSpaces("A ") == 1;
  }

  lemma UpperA1()
    ensures Strip(UpperAll("A1")) == "A1"
  {
    assert UpperAll("A1") == "A1";
    assert LeadingSpaces("A1") == 0;
    assert TrailingSpaces("A1") == 0;
  }

  /** server2.js decodes to lower case where rsa_encryption.py decodes to upper case. */
  lemma {:induction false} LowercaseDecoding(blocks: seq<int>)
    ensures DecryptPairs(blocks, true) == LowerAll(DecryptPairs(blocks, false))
    decreases |blocks|
  {
    if blocks != [] {
      LowercaseDecoding(blocks[..|blocks| - 1]);
      var u := DecryptPairs(blocks[..|blocks| - 1], false);
      var p := PairText(blocks[|blocks| - 1], false);
      assert LowerAll(u + p) == LowerAll(u) + LowerAll(p);
    }
  }

  lemma StripLowerAll(s: string)
    ensures Strip(LowerAll(s)) == LowerAll(Strip(s))
  {
    var i := LeadingSpaces(s);
    var n := TrailingSpaces(s[i..]);
    StripOfLower(s);
    LowerAllSlice(s, i, |s| - n);
  }

  /** Lowering leaves the spaces where they are, so Strip cuts the lowered
      text where it cuts the original. */
  lemma StripOfLower(s: string)
    ensures var i := LeadingSpaces(s);
      Strip(LowerAll(s)) == LowerAll(s)[i..|s| - TrailingSpaces(s[i..])]
  {
    var l := LowerAll(s);
    var i := LeadingSpaces(s);
    var n := TrailingSpaces(s[i..]);
    assert LeadingSpaces(l) == i by {
      SameSpacesLower(s);
    }
    assert TrailingSpaces(l[i..]) == n by {
      TrailingSpacesOfLowerTail(s, i);
    }
    assert |l| == |s|;
    StripByCounts(l, i, n);
    assert Strip(l) == l[i..|s| - n];
  }

  lemma TrailingSpacesOfLowerTail(s: string, i: int)
    requires 0 <= i <= |s|
    ensures TrailingSpaces(LowerAll(s)[i..]) == TrailingSpaces(s[i..])
  {
    var t := s[i..];
    assert LowerAll(s)[i..] == LowerAll(t);
    SameSpacesLower(t);
  }

  /** Strip given the two counts of spaces. */
  lemma StripByCounts(s: string, i: nat, n: nat)
    requires LeadingSpaces(s) == i && TrailingSpaces(s[i..]) == n
    ensures Strip(s) == s[i..|s| - n]
  {
  }

  /** Lowering keeps the spaces where they are. */
  lemma SameSpacesLower(s: string)
    ensures LeadingSpaces(LowerAll(s)) == LeadingSpaces(s)
    ensures TrailingSpaces(LowerAll(s)) == TrailingSpaces(s)
  {
    SameSpaces(s, LowerAll(s));
  }

  /** Lowering commutes with taking a slice. */
  lemma LowerAllSlice(s: string, i: int, j: int)
    requires 0 <= i <= j <= |s|
    ensures LowerAll(s[i..j]) == LowerAll(s)[i..j]
  {
  }

  /** Two texts with spaces at the same places start and end with as many spaces. */
  lemma {:induction false} SameSpaces(a: string, b: string)
    requires |a| == |b| && forall k :: 0 <= k < |a| ==> (a[k] == ' ' <==> b[k] == ' ')
    ensures LeadingSpaces(a) == LeadingSpaces(b) && TrailingSpaces(a) == TrailingSpaces(b)
    decreases |a|
  {
    if a != [] {
      SameSpaces(a[1..], b[1..]);
      SameSpaces(a[..|a| - 1], b[..|b| - 1]);
    }
  }

  /** Across the two servers: server2's decryptMessage applied to server1's
      encryptMessage gives the normalised message in lower case, trimmed. */
  lemma JsRoundTrip(message: string)
    ensures Strip(DecryptPairs(EncryptPairs(Pad(message)), true)) == LowerAll(Strip(Normalize(message)))
  {
    var blocks := EncryptPairs(Pad(message));
    LowercaseDecoding(blocks);
    StripLowerAll(DecryptPairs(blocks, false));
    RoundTrip(message);
  }
}
