/** Base64 decoding, against the encoding of sections 4 and 5 of RFC 4648. */
module Base64 {
  import opened Basics

  // ---------- The alphabet ----------

  const UPPER := "ABCDEFGHIJKLMNOPQRSTUVWXYZ"
  const LOWER := "abcdefghijklmnopqrstuvwxyz"
  const DIGITS := "0123456789+/"
  const BASE64: string := UPPER + LOWER + DIGITS

  function UndoWebSafeEncoding(c: char): char {
    if c == '-' then '+' else if c == '_' then '/' else c
  }

  /** The position of c in the rest of the alphabet, counted from carry; 65 if absent. */
  function UnBase64Impl(c: char, base64: string, carry: nat): nat {
    if base64 == [] then 65
    else if base64[0] == c then carry
    else UnBase64Impl(c, base64[1..], carry + 1)
  }

  function UnBase64(c: char): nat {
    UnBase64Impl(UndoWebSafeEncoding(c), BASE64, 0)
  }

  /** The alphabet in ranges. */
  function CharOf(i: nat): char
    requires i < 64
  {
    if i < 26 then 'A' + i as char
    else if i < 52 then 'a' + (i - 26) as char
    else if i < 62 then '0' + (i - 52) as char
    else if i == 62 then '+' else '/'
  }

  lemma AlphabetIsRanges()
    ensures |BASE64| == 64 && forall i :: 0 <= i < 64 ==> BASE64[i] == CharOf(i)
  {
    assert forall i :: 0 <= i < 26 ==> UPPER[i] == CharOf(i);
    assert forall i :: 0 <= i < 26 ==> LOWER[i] == CharOf(i + 26);
    assert forall i :: 0 <= i < 12 ==> DIGITS[i] == CharOf(i + 52);
  }

  lemma {:induction false} ImplFinds(c: char, from: nat, i: nat)
    requires from <= i <= 64 && |BASE64| == 64
    requires forall k :: from <= k < i ==> BASE64[k] != c
    requires i < 64 ==> BASE64[i] == c
    ensures UnBase64Impl(c, BASE64[from..], from) == if i < 64 then i else 65
    decreases i - from
  {
    if from < i {
      ImplFinds(c, from + 1, i);
      assert BASE64[from..][1..] == BASE64[from + 1..];
    }
  }

  /** c is a character of the standard or of the URL-safe alphabet. */
  predicate InAlphabet(c: char) {
    || 'A' <= c <= 'Z' || 'a' <= c <= 'z' || '0' <= c <= '9'
    || c == '+' || c == '/' || c == '-' || c == '_'
  }

  /** The sextet a character of either alphabet stands for. */
  function SextetOf(c: char): nat
    requires InAlphabet(c)
  {
    if 'A' <= c <= 'Z' then (c - 'A') as nat
    else if 'a' <= c <= 'z' then (c - 'a') as nat + 26
    else if '0' <= c <= '9' then (c - '0') as nat + 52
    else if c == '+' || c == '-' then 62
    else 63
  }

  /** The lookup table is the inverse of the alphabets, and 65 elsewhere. */
  lemma TableIsInverse(c: char)
    ensures UnBase64(c) == if InAlphabet(c) then SextetOf(c) else 65
    ensures InAlphabet(c) ==> SextetOf(c) < 64
  {
    AlphabetIsRanges();
    var d := UndoWebSafeEncoding(c);
    assert BASE64[0..] == BASE64;
    ImplFinds(d, 0, if InAlphabet(c) then SextetOf(c) else 64);
  }

  // ---------- Decoding ----------

  predicate IsSpace(c: char) {
    c == ' ' || '\t' <= c <= '\r'
  }

  predicate IsAscii(s: string) {
    forall i :: 0 <= i < |s| ==> s[i] < '\U{80}'
  }

  predicate Skipped(c: char) {
    IsSpace(c) || c == '='
  }

  /** What is left of the input once white space and padding are dropped. */
  ghost function Significant(s: string): string {
    if s == [] then []
    else Significant(s[..|s| - 1]) + (if Skipped(s[|s| - 1]) then [] else [s[|s| - 1]])
  }

  ghost predicate AllInAlphabet(s: string) {
    forall i :: 0 <= i < |s| ==> InAlphabet(s[i])
  }

  function Sextet(c: char): bv8
    requires InAlphabet(c)
  {
    TableIsInverse(c);
    SextetOf(c) as bv8
  }

  ghost function Codes(s: string): seq<bv8>
    requires AllInAlphabet(s)
  {
    seq(|s|, i requires 0 <= i < |s| => Sextet(s[i]))
  }

  /** Codes regrouped, four into three: merge(k, a, b) is element k of its group and made of two
      adjacent codes. */
  ghost function Regroup<T>(codes: seq<T>, merge: (nat, T, T) -> T): seq<T> {
    if codes == [] then []
    else
      var n := |codes| - 1;
      Regroup(codes[..n], merge) + Completed(codes[..n], codes[n], merge)
  }

  /** What one more code completes. */
  ghost function Completed<T>(codes: seq<T>, c: T, merge: (nat, T, T) -> T): seq<T> {
    var k := |codes| % 4;
    if k == 0 then [] else [merge(k, codes[|codes| - 1], c)]
  }

  lemma RegroupAppend<T>(codes: seq<T>, c: T, merge: (nat, T, T) -> T)
    ensures Regroup(codes + [c], merge) == Regroup(codes, merge) + Completed(codes, c, merge)
  {
    assert (codes + [c])[..|codes|] == codes;
  }

  lemma RegroupFour<T>(a: T, b: T, c: T, d: T, merge: (nat, T, T) -> T)
    ensures Regroup([a, b], merge) == [merge(1, a, b)]
    ensures Regroup([a, b, c], merge) == [merge(1, a, b), merge(2, b, c)]
    ensures Regroup([a, b, c, d], merge) == [merge(1, a, b), merge(2, b, c), merge(3, c, d)]
  {
    RegroupTwo(a, b, merge);
    RegroupThree(a, b, c, merge);
    RegroupAppend([a, b, c], d, merge);
    assert [a, b, c] + [d] == [a, b, c, d];
  }

  lemma RegroupTwo<T>(a: T, b: T, merge: (nat, T, T) -> T)
    ensures Regroup([a, b], merge) == [merge(1, a, b)]
  {
    RegroupAppend([], a, merge);
    RegroupAppend([a], b, merge);
    assert [] + [a] == [a] && [a] + [b] == [a, b];
  }

  lemma RegroupThree<T>(a: T, b: T, c: T, merge: (nat, T, T) -> T)
    ensures Regroup([a, b, c], merge) == [merge(1, a, b), merge(2, b, c)]
  {
    RegroupTwo(a, b, merge);
    RegroupAppend([a, b], c, merge);
    assert [a, b] + [c] == [a, b, c];
  }

  /** A group of four is regrouped by itself. */
  lemma {:induction false} RegroupBehindFour<T>(four: seq<T>, rest: seq<T>, merge: (nat, T, T) -> T)
    requires |four| == 4
    ensures Regroup(four + rest, merge) == Regroup(four, merge) + Regroup(rest, merge)
  {
    if rest == [] {
      assert four + rest == four;
    } else {
      var n := |rest| - 1;
      RegroupBehindFour(four, rest[..n], merge);
      assert (four + rest)[..n + 4] == four + rest[..n];
      CompletedBehindFour(four, rest[..n], rest[n], merge);
    }
  }

  lemma CompletedBehindFour<T>(four: seq<T>, rest: seq<T>, c: T, merge: (nat, T, T) -> T)
    requires |four| == 4
    ensures Completed(four + rest, c, merge) == Completed(rest, c, merge)
  {
    assert |four + rest| % 4 == |rest| % 4;
    if rest != [] {
      assert (four + rest)[|rest| + 3] == rest[|rest| - 1];
    }
  }

  /** Byte k of its group, of two adjacent sextets. */
  function Merge(k: nat, a: bv8, b: bv8): bv8 {
    if k == 1 then (a << 2) | (b >> 4)
    else if k == 2 then (a << 4) | (b >> 2)
    else (a << 6) | b
  }

  /** The bytes of a list of sextets; leftover bits are dropped. */
  ghost function Bytes(six: seq<bv8>): seq<bv8> {
    Regroup(six, Merge)
  }

  /** The loop's registers after reading some sextets. */
  ghost predicate Registers(six: seq<bv8>, bitPos: bv8, dst: bv8) {
    match |six| % 4
    case 0 => bitPos == 0 && dst == 0
    case 1 => bitPos == 6 && dst == six[|six| - 1] << 2
    case 2 => bitPos == 4 && dst == six[|six| - 1] << 4
    case _ => bitPos == 2 && dst == six[|six| - 1] << 6
  }

  lemma Shifts(x: bv8, bitPos: bv8)
    requires x < 64 && (bitPos == 2 || bitPos == 4 || bitPos == 6)
    ensures x >> (bitPos - 2) == if bitPos == 6 then x >> 4 else if bitPos == 4 then x >> 2 else x
    ensures x << (10 - bitPos) == if bitPos == 6 then x << 4 else if bitPos == 4 then x << 6 else 0
  {
  }

  lemma FirstSextet(six: seq<bv8>, dst: bv8, x: bv8)
    requires Registers(six, 0, dst)
    ensures Completed(six, x, Merge) == [] && Registers(six + [x], 6, dst | (x << 2))
  {
  }

  lemma LaterSextet(six: seq<bv8>, bitPos: bv8, dst: bv8, x: bv8)
    requires Registers(six, bitPos, dst) && bitPos != 0
    ensures bitPos == 2 || bitPos == 4 || bitPos == 6
    ensures var shifted := if bitPos == 6 then x >> 4 else if bitPos == 4 then x >> 2 else x;
            Completed(six, x, Merge) == [dst | shifted]
    ensures var shifted := if bitPos == 6 then x << 4 else if bitPos == 4 then x << 6 else 0;
            Registers(six + [x], (bitPos + 6) % 8, shifted)
  {
    match |six| % 4
    case 1 =>
    case 2 =>
    case _ =>
  }

  /** The state of the decoding loop once the characters `read` have been taken. */
  ghost predicate Decoded(read: string, bitPos: bv8, dst: bv8, out: seq<bv8>) {
    AllInAlphabet(read) && Registers(Codes(read), bitPos, dst) && out == Bytes(Codes(read))
  }

  lemma CodesAppend(read: string, c: char)
    requires AllInAlphabet(read) && InAlphabet(c)
    ensures AllInAlphabet(read + [c]) && Codes(read + [c]) == Codes(read) + [Sextet(c)]
  {
  }

  /** One step of the decoding loop. */
  method TakeSextet(srcBin: bv8, bitPos: bv8, dst: bv8, out: seq<bv8>, ghost read: string, ghost src: char)
    returns (bitPos': bv8, dst': bv8, out': seq<bv8>)
    requires InAlphabet(src) && srcBin == Sextet(src) && srcBin < 64 && Decoded(read, bitPos, dst, out)
    ensures Decoded(read + [src], bitPos', dst', out')
  {
    CodesAppend(read, src);
    bitPos', dst', out' := Shift(srcBin, bitPos, dst, out, Codes(read));
  }

  method Shift(srcBin: bv8, bitPos: bv8, dst: bv8, out: seq<bv8>, ghost six: seq<bv8>)
    returns (bitPos': bv8, dst': bv8, out': seq<bv8>)
    requires srcBin < 64 && Registers(six, bitPos, dst) && out == Bytes(six)
    ensures Registers(six + [srcBin], bitPos', dst') && out' == Bytes(six + [srcBin])
  {
    RegroupAppend(six, srcBin, Merge);
    if bitPos == 0 {
      FirstSextet(six, dst, srcBin);
      dst' := dst | (srcBin << 2);
      bitPos' := 6;
      out' := out;
    } else {
      LaterSextet(six, bitPos, dst, srcBin);
      Shifts(srcBin, bitPos);
      dst' := dst | (srcBin >> (bitPos - 2));
      out' := out + [dst'];
      dst' := srcBin << (10 - bitPos);
      bitPos' := (bitPos + 6) % 8;
    }
  }

  method TakeChar(src: char, bitPos: bv8, dst: bv8, out: seq<bv8>, ghost read: string)
    returns (ok: bool, bitPos': bv8, dst': bv8, out': seq<bv8>)
    requires Decoded(read, bitPos, dst, out)
    ensures ok <==> InAlphabet(src)
    ensures ok ==> Decoded(read + [src], bitPos', dst', out')
  {
    TableIsInverse(src);
    var srcBin := UnBase64(src);
    if srcBin >= 64 {
      return false, bitPos, dst, out;
    }
    SextetRange(src);
    bitPos', dst', out' := TakeSextet(srcBin as bv8, bitPos, dst, out, read, src);
    ok := true;
  }

  lemma SextetRange(c: char)
    requires InAlphabet(c)
    ensures Sextet(c) < 64
  {
    TableIsInverse(c);
  }

  /** Where char is signed, isspace and the table are undefined for characters above 0x7F. */
  method Base64Unescape(encoded: string, ghost charIsSigned: bool) returns (decoded: Option<seq<bv8>>)
    requires charIsSigned ==> IsAscii(encoded)
    ensures decoded.Some? <==> AllInAlphabet(Significant(encoded))
    ensures decoded.Some? ==> decoded.value == Bytes(Codes(Significant(encoded)))
  {
    var out: seq<bv8> := [];
    var bitPos: bv8 := 0;
    var dst: bv8 := 0;
    ghost var read: string := [];
    for i := 0 to |encoded|
      invariant read == Significant(encoded[..i])
      invariant Decoded(read, bitPos, dst, out)
    {
      var src := encoded[i];
      TakeOne(encoded, i);
      if IsSpace(src) || src == '=' {
        continue;
      }
      var ok;
      ok, bitPos, dst, out := TakeChar(src, bitPos, dst, out, read);
      if !ok {
        AcceptedInputs(encoded);
        return None;
      }
      read := read + [src];
    }
    assert encoded[..|encoded|] == encoded;
    return Some(out);
  }

  lemma TakeOne(s: string, i: nat)
    requires i < |s|
    ensures Significant(s[..i + 1]) == Significant(s[..i]) + (if Skipped(s[i]) then [] else [s[i]])
  {
    assert s[..i + 1][..i] == s[..i];
  }

  /** Decoding succeeds on exactly the inputs whose every character is allowed. */
  lemma {:induction false} AcceptedInputs(s: string)
    ensures AllInAlphabet(Significant(s)) <==> forall i :: 0 <= i < |s| ==> Skipped(s[i]) || InAlphabet(s[i])
  {
    if s != [] {
      var front, last := s[..|s| - 1], s[|s| - 1];
      AcceptedInputs(front);
      var all, kept := Significant(s), Significant(front);
      assert all == kept + (if Skipped(last) then [] else [last]);
      assert forall i :: 0 <= i < |kept| ==> all[i] == kept[i];
      assert forall i :: 0 <= i < |front| ==> front[i] == s[i];
      if !Skipped(last) { assert all[|kept|] == last; }
    }
  }

  // ---------- Encoding, and the round trip ----------

  /** Either of the two alphabets may be used for each sextet. */
  ghost predicate Encodes(c: char, sextet: bv8) {
    InAlphabet(c) && Sextet(c) == sextet
  }

  /** The sextets of section 4 of RFC 4648, without padding. */
  function Sextets(data: seq<bv8>): seq<bv8> {
    if data == [] then []
    else if |data| == 1 then [data[0] >> 2, (data[0] & 3) << 4]
    else if |data| == 2 then [data[0] >> 2, ((data[0] & 3) << 4) | (data[1] >> 4), (data[1] & 15) << 2]
    else SextetsOfThree(data[0], data[1], data[2]) + Sextets(data[3..])
  }

  /** text is an encoding of data: its significant characters spell the sextets, in either
      alphabet; padding and white space may stand anywhere. */
  ghost predicate IsEncoding(text: string, data: seq<bv8>) {
    var s, six := Significant(text), Sextets(data);
    |s| == |six| && forall i :: 0 <= i < |s| ==> Encodes(s[i], six[i])
  }

  function SextetsOfThree(a: bv8, b: bv8, c: bv8): seq<bv8> {
    [a >> 2, ((a & 3) << 4) | (b >> 4), ((b & 15) << 2) | (c >> 6), c & 63]
  }

  lemma ThreeBytesReturn(a: bv8, b: bv8, c: bv8, rest: seq<bv8>)
    ensures Bytes(SextetsOfThree(a, b, c) + rest) == [a, b, c] + Bytes(rest)
  {
    RegroupFour(a >> 2, ((a & 3) << 4) | (b >> 4), ((b & 15) << 2) | (c >> 6), c & 63, Merge);
    RegroupBehindFour(SextetsOfThree(a, b, c), rest, Merge);
    Recombine(a, b, c);
  }

  lemma {:induction false} BytesInvertSextets(data: seq<bv8>)
    ensures Bytes(Sextets(data)) == data
    decreases |data|
  {
    if |data| >= 3 {
      ThreeBytesReturn(data[0], data[1], data[2], Sextets(data[3..]));
      BytesInvertSextets(data[3..]);
      assert data == [data[0], data[1], data[2]] + data[3..];
    } else if |data| == 2 {
      RegroupFour(data[0] >> 2, ((data[0] & 3) << 4) | (data[1] >> 4), (data[1] & 15) << 2, 0, Merge);
      Recombine(data[0], data[1], 0);
      assert data == [data[0], data[1]];
    } else if |data| == 1 {
      RegroupFour(data[0] >> 2, (data[0] & 3) << 4, 0, 0, Merge);
      Recombine(data[0], 0, 0);
      assert data == [data[0]];
    }
  }

  lemma Recombine(a: bv8, b: bv8, c: bv8)
    ensures Merge(1, a >> 2, ((a & 3) << 4) | (b >> 4)) == a && Merge(1, a >> 2, (a & 3) << 4) == a
    ensures Merge(2, ((a & 3) << 4) | (b >> 4), ((b & 15) << 2) | (c >> 6)) == b
    ensures Merge(2, ((a & 3) << 4) | (b >> 4), (b & 15) << 2) == b
    ensures Merge(3, ((b & 15) << 2) | (c >> 6), c & 63) == c
  {
  }

  /** Encoded text is ASCII, whatever white space and padding it holds. */
  lemma EncodedIsAscii(text: string, data: seq<bv8>)
    requires IsEncoding(text, data)
    ensures AllInAlphabet(Significant(text)) && IsAscii(text)
  {
    var s := Significant(text);
    assert forall i :: 0 <= i < |s| ==> Encodes(s[i], Sextets(data)[i]);
    AcceptedInputs(text);
  }

  /** Decoding any encoding of data gives data back. */
  method RoundTrip(text: string, ghost charIsSigned: bool, ghost data: seq<bv8>) returns (decoded: Option<seq<bv8>>)
    requires IsEncoding(text, data)
    ensures decoded == Some(data)
  {
    BytesInvertSextets(data);
    EncodedIsAscii(text, data);
    assert Codes(Significant(text)) == Sextets(data);
    decoded := Base64Unescape(text, charIsSigned);
  }

  // ---------- The encoding, bit by bit ----------

  /** White space is the characters from 9 to 13 and the blank; padding is the equals sign. */
  lemma SkippedCharacters(c: char)
    ensures Skipped(c) <==> 9 <= c as int <= 13 || c as int == 32 || c as int == 61
  {
  }

  lemma {:induction false} SignificantAppend(a: string, b: string)
    ensures Significant(a + b) == Significant(a) + Significant(b)
  {
    if b == [] {
      assert a + b == a;
    } else {
      var front, last := b[..|b| - 1], b[|b| - 1];
      SignificantAppend(a, front);
      assert (a + b)[..|a + b| - 1] == a + front && (a + b)[|a + b| - 1] == last;
      assert Significant(a) + Significant(front) + [last] == Significant(a) + (Significant(front) + [last]);
    }
  }

  /** White space and equals signs may be inserted anywhere into an encoding. */
  lemma InsertSkipped(text: string, data: seq<bv8>, i: nat, c: char)
    requires IsEncoding(text, data) && i <= |text|
    requires 9 <= c as int <= 13 || c as int == 32 || c as int == 61
    ensures IsEncoding(text[..i] + [c] + text[i..], data)
  {
    var front, back := text[..i], text[i..];
    SkippedCharacters(c);
    SignificantAppend(front + [c], back);
    SignificantAppend(front, [c]);
    SignificantAppend(front, back);
    assert [c][..0] == [] && Significant([c]) == [];
    assert text == front + back;
  }

  /** Four sextets and their three bytes are the same 24 bits. */
  lemma SameBitsBack(a: bv8, b: bv8, c: bv8, d: bv8)
    requires a < 64 && b < 64 && c < 64 && d < 64
    ensures (a as bv24 << 18) | (b as bv24 << 12) | (c as bv24 << 6) | (d as bv24)
         == (Merge(1, a, b) as bv24 << 16) | (Merge(2, b, c) as bv24 << 8) | (Merge(3, c, d) as bv24)
  {
  }

  /** What the sextets of one group decode to; of an incomplete group only the complete bytes. */
  lemma DecodedInGroups(a: bv8, b: bv8, c: bv8, d: bv8, rest: seq<bv8>)
    ensures Bytes([a, b, c, d] + rest) == [Merge(1, a, b), Merge(2, b, c), Merge(3, c, d)] + Bytes(rest)
    ensures Bytes([a, b, c]) == [Merge(1, a, b), Merge(2, b, c)] && Bytes([a, b]) == [Merge(1, a, b)]
    ensures Bytes([a]) == [] && Bytes([]) == []
  {
    RegroupFour(a, b, c, d, Merge);
    RegroupBehindFour([a, b, c, d], rest, Merge);
    RegroupAppend([], a, Merge);
    assert [] + [a] == [a];
  }

  /** Three bytes and their four sextets are the same 24 bits. */
  lemma SameBits(a: bv8, b: bv8, c: bv8)
    ensures var six := SextetsOfThree(a, b, c);
            && (a as bv24 << 16) | (b as bv24 << 8) | (c as bv24)
            == (six[0] as bv24 << 18) | (six[1] as bv24 << 12) | (six[2] as bv24 << 6) | (six[3] as bv24)
            && six[0] < 64 && six[1] < 64 && six[2] < 64 && six[3] < 64
  {
  }

  /** Each three bytes are encoded by themselves. */
  lemma EncodedInGroups(a: bv8, b: bv8, c: bv8, rest: seq<bv8>)
    ensures Sextets([a, b, c] + rest) == SextetsOfThree(a, b, c) + Sextets(rest)
  {
    assert ([a, b, c] + rest)[3..] == rest;
  }

  /** One or two bytes left over are encoded as if zeros followed, without the sextets that hold
      only those. */
  lemma EncodedRemainder(a: bv8, b: bv8)
    ensures SextetsOfThree(a, b, 0)[..3] == Sextets([a, b])
    ensures SextetsOfThree(a, 0, 0)[..2] == Sextets([a])
  {
    ZerosFollow(a, b);
    var two, one := SextetsOfThree(a, b, 0), SextetsOfThree(a, 0, 0);
    assert two[..3] == [two[0], two[1], two[2]] && one[..2] == [one[0], one[1]];
  }

  lemma ZerosFollow(a: bv8, b: bv8)
    ensures SextetsOfThree(a, b, 0)[2] == (b & 15) << 2 && SextetsOfThree(a, 0, 0)[1] == (a & 3) << 4
  {
  }
}
