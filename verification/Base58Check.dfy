/** Base 58 there and back, with and without a checksum. */
module Base58Check {
  import opened Radix
  import opened Base58Tables
  import opened Base58

  // ---- A string is read in one way ----

  /** A reading, seen from its first character on. */
  lemma ReadingOf(str: string, i: nat, j: nat, z: nat, d: seq<nat>)
    requires Parses(str, i, j, z, d) && i < j
    ensures Read(str, i, z, j, d)
  {
    InParsed(str, i, j, z, d, i);
    if d != [] {
      DigitOfChar(d[0]);
    }
  }

  lemma ReadOnce(str: string, i: nat, j: nat, z: nat, d: seq<nat>, i': nat, j': nat, z': nat, d': seq<nat>)
    requires Parses(str, i, j, z, d) && Parses(str, i', j', z', d')
    ensures z == z' && d == d'
  {
    if i < j {
      InParsed(str, i, j, z, d, i);
      ParsedStart(str, i, i', j', z', d');
      ReadingOf(str, i, j, z, d);
      ReadingOf(str, i', j', z', d');
      SameReading(str, i, j, z, d, j', z', d');
    } else if i' < j' {
      InParsed(str, i', j', z', d', i');
    }
  }

  lemma SameReading(str: string, i: nat, j: nat, z: nat, d: seq<nat>, j': nat, z': nat, d': seq<nat>)
    requires Parses(str, i, j, z, d) && Parses(str, i, j', z', d') && Read(str, i, z, j, d) && Read(str, i, z', j', d')
    ensures z == z' && d == d'
  {
    ParsedOnes(str, i, z, i, j', z', d');
    ParsedOnes(str, i, z', i, j, z, d);
    if d != [] {
      ParsedDigits(str, i, z, j, d, i, j', z', d');
    }
    if d' != [] {
      ParsedDigits(str, i, z', j', d', i, j, z, d);
    }
  }

  lemma DecodesOnce(str: string, max: int, z: nat, d: seq<nat>, tail: seq<nat>, i: nat, j: nat, z': nat, d': seq<nat>, tail': seq<nat>)
    requires Decodes(str, max, z, d, tail) && Parses(str, i, j, z', d') && Converts(d', tail')
    ensures z == z' && d == d' && tail == tail'
  {
    var k, l :| Parses(str, k, l, z, d);
    ReadOnce(str, k, l, z, d, i, j, z', d');
    TrimmedOnce(tail, tail', 256);
  }

  // ---- There and back ----

  lemma EncodedParses(z: nat, d: seq<nat>)
    requires Digits(d, 58) && Trimmed(d)
    ensures var str := Ones(z) + Chars(d); Parses(str, 0, |str|, z, d)
  {
  }

  /** Decoding an encoding gives back the bytes exactly if they fit the limit. */
  method EncodeDecode(input: seq<nat>, max: int) returns (ok: bool, bytes: seq<nat>)
    requires Digits(input, 256)
    ensures ok <==> |input| <= max || input == []
    ensures ok ==> bytes == input
  {
    hide Converts, Parses;
    ghost var z, d, z', d';
    var str;
    str, z, d := EncodeBase58(input);
    ConvertsDigits(d, input[z..]);
    EncodedParses(z, d);
    assert |input| <= max || input == [] ==> Decodes(str, max, z, d, input[z..]);
    ok, bytes, z', d' := DecodeBase58(str, max);
    if ok {
      DecodesOnce(str, max, z', d', bytes[z'..], 0, |str|, z, d, input[z..]);
    }
  }

  lemma ConvertsDigits(d: seq<nat>, tail: seq<nat>)
    requires Converts(d, tail)
    ensures Digits(d, 58) && Trimmed(d) && Digits(tail, 256) && Trimmed(tail)
  {
  }

  /** Encoding what was decoded gives back the string without the spaces around it. */
  method DecodeEncode(str: string, max: int) returns (ok: bool, s: string, ghost i: nat, ghost j: nat)
    ensures ok ==>
              && i <= j <= |str| && s == str[i..j]
              && (forall k :: 0 <= k < i ==> IsSpace(str[k])) && (forall k :: j <= k < |str| ==> IsSpace(str[k]))
              && (forall k :: i <= k < j ==> !IsSpace(str[k]))
  {
    hide Number;
    ghost var z, d, z', d';
    var bytes;
    s, i, j := "", 0, 0;
    ok, bytes, z, d := DecodeBase58(str, max);
    if ok {
      i, j :| Parses(str, i, j, z, d);
      NoSpaceInside(str, i, j, z, d);
      ConvertsDigits(d, bytes[z..]);
      ZerosAndTail(z, bytes[z..]);
      s, z', d' := EncodeBase58(bytes);
      ConvertsDigits(d', bytes[z'..]);
      SameZeros(bytes, z, z');
      TrimmedOnce(d, d', 58);
      ParsedIs(str, i, j, z, d);
    }
  }

  lemma ParsedIs(str: string, i: nat, j: nat, z: nat, d: seq<nat>)
    requires Parses(str, i, j, z, d)
    ensures i <= j <= |str| && Ones(z) + Chars(d) == str[i..j]
    ensures (forall k :: 0 <= k < i ==> IsSpace(str[k])) && (forall k :: j <= k < |str| ==> IsSpace(str[k]))
  {
  }

  lemma NoSpaceInside(str: string, i: nat, j: nat, z: nat, d: seq<nat>)
    requires Parses(str, i, j, z, d)
    ensures forall k :: i <= k < j ==> !IsSpace(str[k])
  {
    forall k | i <= k < j
      ensures !IsSpace(str[k])
    {
      InParsed(str, i, j, z, d, k);
    }
  }

  lemma ZerosAndTail(z: nat, tail: seq<nat>)
    requires Digits(tail, 256)
    ensures Digits(Zeros(z) + tail, 256)
  {
  }

  lemma SameZeros(bytes: seq<nat>, z: nat, z': nat)
    requires z <= |bytes| && bytes == Zeros(z) + bytes[z..] && Trimmed(bytes[z..])
    requires z' <= |bytes| && bytes == Zeros(z') + bytes[z'..] && Trimmed(bytes[z'..])
    ensures z == z'
  {
    ZerosLead(bytes, z);
    ZerosLead(bytes, z');
  }

  lemma ZerosLead(bytes: seq<nat>, z: nat)
    requires z <= |bytes| && bytes == Zeros(z) + bytes[z..] && Trimmed(bytes[z..])
    ensures forall i :: 0 <= i < z ==> bytes[i] == 0
    ensures z < |bytes| ==> bytes[z] != 0
  {
    forall i | 0 <= i < z
      ensures bytes[i] == 0
    {
      assert bytes[i] == (Zeros(z) + bytes[z..])[i];
    }
    assert z < |bytes| ==> bytes[z..][0] == bytes[z];
  }

  // ---- Spaces ----

  /** Spaces, tabs, line breaks and page breaks around a string make no difference. */
  lemma SpacesAround(before: string, str: string, after: string, max: int, z: nat, d: seq<nat>, tail: seq<nat>)
    requires forall k :: 0 <= k < |before| ==> before[k] as int == 32 || 9 <= before[k] as int <= 13
    requires forall k :: 0 <= k < |after| ==> after[k] as int == 32 || 9 <= after[k] as int <= 13
    requires Decodes(str, max, z, d, tail)
    ensures Decodes(before + str + after, max, z, d, tail)
  {
    hide Converts;
    var i, j :| Parses(str, i, j, z, d);
    var s := before + str + after;
    assert forall k :: 0 <= k < |str| ==> s[|before| + k] == str[k];
    assert forall k :: |before| + |str| <= k < |s| ==> s[k] == after[k - |before| - |str|];
    assert Parses(s, |before| + i, |before| + j, z, d);
  }

  /** Nothing else than these and the 58 digits occurs in a string that can be decoded. */
  lemma OnlyDigitsAndSpaces(str: string, max: int, z: nat, d: seq<nat>, tail: seq<nat>, k: nat)
    requires Decodes(str, max, z, d, tail) && k < |str|
    ensures str[k] as int == 32 || 9 <= str[k] as int <= 13 || Map58(str[k] as int) != -1
  {
    hide Converts, Map58;
    var i: nat, j: nat :| Parses(str, i, j, z, d);
    if i <= k < j {
      InParsed(str, i, j, z, d, k);
    }
  }

  // ---- With a checksum ----

  const INT_MAX := 0x7fff_ffff

  /** The first four bytes of the hash of some bytes. */
  datatype Hasher = Hasher(check: seq<nat> -> seq<nat>)

  ghost predicate FourBytes(h: Hasher) {
    forall s :: Digits(h.check(s), 256) && |h.check(s)| == 4
  }

  method EncodeBase58Check(h: Hasher, input: seq<nat>) returns (str: string, ghost z: nat, ghost d: seq<nat>)
    requires FourBytes(h) && Digits(input, 256)
    ensures var vch := input + h.check(input);
            && z <= |vch| && vch == Zeros(z) + vch[z..] && Converts(d, vch[z..]) && str == Ones(z) + Chars(d)
  {
    var vch := input + h.check(input);
    str, z, d := EncodeBase58(vch);
  }

  /** The limit does not count the checksum. */
  function WithCheck(max: int): int { if max > INT_MAX - 4 then INT_MAX else max + 4 }

  method DecodeBase58Check(h: Hasher, str: string, max: int) returns (ok: bool, bytes: seq<nat>, ghost z: nat, ghost d: seq<nat>)
    requires FourBytes(h)
    ensures ok ==> Checked(h, str, max, bytes, z, d)
    ensures !ok ==> bytes == [] && forall b, z', d' :: !Checked(h, str, max, b, z', d')
  {
    hide Decodes;
    ok, bytes, z, d := DecodeBase58(str, WithCheck(max));
    if !ok || |bytes| < 4 {
      NotChecked(h, str, max, ok, bytes, z, d);
      return false, [], z, d;
    }
    var n := |bytes| - 4;
    if h.check(bytes[..n]) != bytes[n..] {
      NotChecked(h, str, max, ok, bytes, z, d);
      return false, [], z, d;
    }
    assert bytes == bytes[..n] + h.check(bytes[..n]);
    bytes := bytes[..n];
  }

  /** A string stands for bytes that are followed by their check. */
  ghost predicate Checked(h: Hasher, str: string, max: int, b: seq<nat>, z: nat, d: seq<nat>) {
    var vch := b + h.check(b);
    z <= |vch| && vch == Zeros(z) + vch[z..] && Decodes(str, WithCheck(max), z, d, vch[z..])
  }

  lemma NotChecked(h: Hasher, str: string, max: int, ok: bool, bytes: seq<nat>, z: nat, d: seq<nat>)
    requires FourBytes(h)
    requires ok ==> z <= |bytes| && bytes == Zeros(z) + bytes[z..] && Decodes(str, WithCheck(max), z, d, bytes[z..])
    requires !ok ==> forall z', d', tail' :: !Decodes(str, WithCheck(max), z', d', tail')
    requires ok && |bytes| >= 4 ==> h.check(bytes[..|bytes| - 4]) != bytes[|bytes| - 4..]
    ensures forall b, z', d' :: !Checked(h, str, max, b, z', d')
  {
    forall b: seq<nat>, z': nat, d': seq<nat>
      ensures !Checked(h, str, max, b, z', d')
    {
      if Checked(h, str, max, b, z', d') && ok {
        var vch := b + h.check(b);
        var i, j :| Parses(str, i, j, z', d');
        DecodesOnce(str, WithCheck(max), z, d, bytes[z..], i, j, z', d', vch[z'..]);
        SameChecked(h, b, bytes);
      }
    }
  }

  lemma SameChecked(h: Hasher, b: seq<nat>, bytes: seq<nat>)
    requires FourBytes(h) && bytes == b + h.check(b)
    ensures |bytes| >= 4 && bytes[..|bytes| - 4] == b && bytes[|bytes| - 4..] == h.check(b)
  {
    assert |h.check(b)| == 4;
  }

  /** With a checksum, decoding undoes encoding exactly if the bytes and their check fit. */
  method EncodeDecodeCheck(h: Hasher, input: seq<nat>, max: int) returns (ok: bool, bytes: seq<nat>)
    requires FourBytes(h) && Digits(input, 256)
    ensures ok <==> if max <= 2147483643 then |input| <= max else |input| + 4 <= 2147483647
    ensures ok ==> bytes == input
  {
    hide Converts, Parses;
    ghost var z, d, z', d';
    var str;
    str, z, d := EncodeBase58Check(h, input);
    ghost var vch := input + h.check(input);
    assert |h.check(input)| == 4;
    ConvertsDigits(d, vch[z..]);
    EncodedParses(z, d);
    assert |input| + 4 <= WithCheck(max) ==> Checked(h, str, max, input, z, d);
    ok, bytes, z', d' := DecodeBase58Check(h, str, max);
    if ok {
      ghost var vch' := bytes + h.check(bytes);
      DecodesOnce(str, WithCheck(max), z', d', vch'[z'..], 0, |str|, z, d, vch[z..]);
      SameChecked(h, input, vch);
      SameChecked(h, bytes, vch');
    }
  }
}
