// The base64 stream codec with the RFC 4648 alphabet, which generates and
// requires padding and ignores no character. Bit fields are written as
// quotients and remainders; the fields combined are always disjoint.
module Base64 {

  type Byte = b: int | 0 <= b < 256
  type Index = i: int | 0 <= i < 64

  // ----- The alphabet -----

  // A-Z, a-z, 0-9, + and /.
  function Symbol(i: Index): char {
    if i < 26 then 'A' + i as char
    else if i < 52 then 'a' + (i - 26) as char
    else if i < 62 then '0' + (i - 52) as char
    else if i == 62 then '+' else '/'
  }

  // Table 1 of RFC 4648.
  const ALPHABET: string :=
    "ABCDEFGHIJKLM" + "NOPQRSTUVWXYZ" + "abcdefghijklm" + "nopqrstuvwxyz" + "0123456789+/"

  const PADDING_IDX: nat := 256
  const INVALID_IDX: nat := 512
  const EOF_IDX: nat := 1024

  function SearchAlphabet(c: char, i: nat): (index: nat)
    requires i <= 64
    decreases 64 - i
  {
    if i == 64 then
      if c == '\0' then EOF_IDX else if c == '=' then PADDING_IDX else INVALID_IDX
    else if Symbol(i) == c then i
    else SearchAlphabet(c, i + 1)
  }

  function Lookup(c: char): nat { SearchAlphabet(c, 0) }

  predicate IsStop(index: nat) { index >= 256 }

  predicate InAlphabet(c: char) { Lookup(c) < 64 }

  lemma {:induction false} SearchResult(c: char, i: nat)
    requires i <= 64
    ensures var r := SearchAlphabet(c, i);
            && (r < 64 ==> r >= i && Symbol(r) == c)
            && (r >= 64 ==> r == if c == '\0' then EOF_IDX else if c == '=' then PADDING_IDX else INVALID_IDX)
    decreases 64 - i
  {
    hide Symbol;
    if i < 64 {
      SearchResult(c, i + 1);
    }
  }

  lemma SymbolsDiffer(i: Index, j: Index)
    requires i != j
    ensures Symbol(i) != Symbol(j)
  {
  }

  lemma NotSpecial(i: Index)
    ensures Symbol(i) != '\0' && Symbol(i) != '='
  {
  }

  lemma {:induction false} SearchFinds(k: Index, i: nat)
    requires i <= k
    ensures SearchAlphabet(Symbol(k), i) == k
    decreases k - i
  {
    hide Symbol;
    if i < k {
      SymbolsDiffer(i, k);
      SearchFinds(k, i + 1);
    }
  }

  // The lookup inverts the alphabet and tells the stop characters apart.
  lemma LookupSymbol(k: Index)
    ensures Lookup(Symbol(k)) == k
  {
    hide Symbol;
    SearchFinds(k, 0);
  }

  lemma SymbolListed(i: Index)
    ensures |ALPHABET| == 64 && Symbol(i) == ALPHABET[i]
  {
  }

  // Both directions of the table.
  lemma AlphabetIs(i: Index)
    ensures |ALPHABET| == 64 && Symbol(i) == ALPHABET[i] && Lookup(ALPHABET[i]) == i
  {
    hide *;
    SymbolListed(i);
    LookupSymbol(i);
  }

  lemma LookupCases(c: char)
    ensures var r := Lookup(c);
            && (r < 64 ==> Symbol(r) == c && c != '\0' && c != '=')
            && (r >= 64 ==> r == if c == '\0' then EOF_IDX else if c == '=' then PADDING_IDX else INVALID_IDX)
  {
    hide Symbol;
    SearchResult(c, 0);
    if Lookup(c) < 64 { NotSpecial(Lookup(c)); }
  }

  // ----- Encoding -----

  function Index0(b0: Byte): Index { b0 / 4 }
  function Index1(b0: Byte, b1: Byte): Index { b0 % 4 * 16 + b1 / 16 }
  function Index2(b1: Byte, b2: Byte): Index { b1 % 16 * 4 + b2 / 64 }
  function Index3(b2: Byte): Index { b2 % 64 }

  function EncodedBlock(b0: Byte, b1: Byte, b2: Byte): (s: string)
    ensures |s| == 4
  {
    [Symbol(Index0(b0)), Symbol(Index1(b0, b1)), Symbol(Index2(b1, b2)), Symbol(Index3(b2))]
  }

  // One or two bytes left over are filled up with zero bits and the missing
  // symbols with padding.
  function EncodedTail(tail: seq<Byte>): (s: string)
    requires |tail| < 3
    ensures |s| == if tail == [] then 0 else 4
  {
    if |tail| == 0 then []
    else if |tail| == 1 then [Symbol(Index0(tail[0]))] + [Symbol(Index1(tail[0], 0))] + Padding(2)
    else [Symbol(Index0(tail[0]))] + [Symbol(Index1(tail[0], tail[1]))] + [Symbol(Index2(tail[1], 0))] + Padding(1)
  }

  function Padding(n: nat): (s: string)
    ensures |s| == n
  {
    seq(n, _ => '=')
  }

  lemma PaddingNext(n: nat)
    ensures Padding(n) + ['='] == Padding(n + 1)
  {
  }

  function Encoded(bytes: seq<Byte>): string {
    if |bytes| < 3 then EncodedTail(bytes)
    else EncodedBlock(bytes[0], bytes[1], bytes[2]) + Encoded(bytes[3..])
  }

  function ByteAt(bytes: seq<Byte>, i: nat): Byte { if i < |bytes| then bytes[i] else 0 }

  // The six bits from bit 6 * j on, zero bits following the last byte.
  function SixBits(bytes: seq<Byte>, j: nat): Index {
    var i, offset := 6 * j / 8, 6 * j % 8;
    var window := ByteAt(bytes, i) * 256 + ByteAt(bytes, i + 1);
    window / (if offset == 0 then 1024 else if offset == 2 then 256 else if offset == 4 then 64 else 16) % 64
  }

  lemma WindowBits(x: Byte, y: Byte)
    ensures (x * 256 + y) / 1024 % 64 == x / 4
    ensures (x * 256 + y) / 16 % 64 == x % 4 * 16 + y / 16
    ensures (x * 256 + y) / 64 % 64 == x % 16 * 4 + y / 64
    ensures (x * 256 + y) / 256 % 64 == x % 64
  {
    var m, n: int := y / 16, y / 64;
    assert (x * 256 + y) / 16 == x * 16 + m;
    assert (x * 256 + y) / 64 == x * 4 + n;
    assert (x * 256 + y) / 256 == x && (x * 256 + y) / 1024 == x / 4;
    LowSix(x / 4, x % 4 * 16 + m);
    LowSix(x / 16, x % 16 * 4 + n);
  }

  lemma LowSix(q: int, r: int)
    requires 0 <= r < 64
    ensures (64 * q + r) % 64 == r
  {
  }

  lemma SixBitsAt(bytes: seq<Byte>, j: nat, x: Byte, y: Byte)
    requires x == ByteAt(bytes, 6 * j / 8) && y == ByteAt(bytes, 6 * j / 8 + 1)
    ensures 6 * j % 8 == 0 ==> SixBits(bytes, j) == (x * 256 + y) / 1024 % 64
    ensures 6 * j % 8 == 6 ==> SixBits(bytes, j) == (x * 256 + y) / 16 % 64
    ensures 6 * j % 8 == 4 ==> SixBits(bytes, j) == (x * 256 + y) / 64 % 64
    ensures 6 * j % 8 == 2 ==> SixBits(bytes, j) == (x * 256 + y) / 256 % 64
  {
    hide ByteAt;
  }

  lemma SixBitsFirst(bytes: seq<Byte>)
    ensures SixBits(bytes, 0) == Index0(ByteAt(bytes, 0))
    ensures SixBits(bytes, 1) == Index1(ByteAt(bytes, 0), ByteAt(bytes, 1))
    ensures SixBits(bytes, 2) == Index2(ByteAt(bytes, 1), ByteAt(bytes, 2))
    ensures SixBits(bytes, 3) == Index3(ByteAt(bytes, 2))
  {
    hide ByteAt, SixBits;
    var b0, b1, b2, b3 := ByteAt(bytes, 0), ByteAt(bytes, 1), ByteAt(bytes, 2), ByteAt(bytes, 3);
    SixBitsAt(bytes, 0, b0, b1); SixBitsAt(bytes, 1, b0, b1); SixBitsAt(bytes, 2, b1, b2); SixBitsAt(bytes, 3, b2, b3);
    WindowBits(b0, b1); WindowBits(b1, b2); WindowBits(b2, b3);
  }

  lemma SixBitsRest(bytes: seq<Byte>, j: nat)
    requires |bytes| >= 3
    ensures SixBits(bytes[3..], j) == SixBits(bytes, j + 4)
  {
    assert 6 * (j + 4) / 8 == 6 * j / 8 + 3 && 6 * (j + 4) % 8 == 6 * j % 8;
    assert ByteAt(bytes[3..], 6 * j / 8) == ByteAt(bytes, 6 * j / 8 + 3);
    assert ByteAt(bytes[3..], 6 * j / 8 + 1) == ByteAt(bytes, 6 * j / 8 + 4);
  }

  // The symbols stand for the bytes six bits at a time; the rest is padding.
  lemma {:induction false} EncodedDigits(bytes: seq<Byte>, j: nat)
    requires j < |Encoded(bytes)|
    ensures Encoded(bytes)[j] == if 6 * j < 8 * |bytes| then ALPHABET[SixBits(bytes, j)] else '='
  {
    hide SixBits, ByteAt, Index0, Index1, Index2, Index3, Symbol, ALPHABET;
    SymbolListed(SixBits(bytes, j));
    if j >= 4 {
      EncodedDigits(bytes[3..], j - 4);
      SixBitsRest(bytes, j - 4);
    } else {
      SixBitsFirst(bytes);
      FirstBytes(bytes);
    }
  }

  lemma FirstBytes(bytes: seq<Byte>)
    ensures forall i: nat :: i < |bytes| ==> ByteAt(bytes, i) == bytes[i]
    ensures forall i: nat :: i >= |bytes| ==> ByteAt(bytes, i) == 0
  {
  }

  // encoded_size.
  function EncodedSize(n: nat): nat { (n + 2 - (n + 2) % 3) * 4 / 3 }

  lemma EncodedSizeIs(n: nat, q: nat)
    requires q == (n + 2) / 3
    ensures EncodedSize(n) == 4 * q
  {
  }

  lemma EncodedSizeStep(n: nat)
    ensures EncodedSize(n + 3) == EncodedSize(n) + 4
  {
    hide EncodedSize;
    EncodedSizeIs(n, (n + 2) / 3);
    EncodedSizeIs(n + 3, (n + 5) / 3);
  }

  lemma {:induction false} EncodedLength(bytes: seq<Byte>)
    ensures |Encoded(bytes)| == EncodedSize(|bytes|) && |Encoded(bytes)| % 4 == 0
  {
    hide EncodedTail, EncodedBlock;
    if |bytes| >= 3 {
      hide EncodedSize;
      EncodedLength(bytes[3..]);
      EncodedSizeStep(|bytes| - 3);
    }
  }

  method Encode(bytes: seq<Byte>) returns (result: string)
    ensures result == Encoded(bytes) && |result| == EncodedSize(|bytes|)
  {
    hide *;
    result := [];
    var src := 0;
    var srcEnd := |bytes|;
    assert bytes[0..] == bytes;
    if |bytes| >= 3 {
      srcEnd := srcEnd - 3;
      while src <= srcEnd
        invariant 0 <= src <= |bytes| && srcEnd == |bytes| - 3
        invariant result + Encoded(bytes[src..]) == Encoded(bytes)
      {
        BlockStep(result, bytes, src);
        result := result + EncodedBlock(bytes[src], bytes[src + 1], bytes[src + 2]);
        src := src + 3;
      }
      srcEnd := srcEnd + 3;
    }
    ghost var blocks := result;
    TailStep(bytes[src..]);
    if srcEnd > src {
      var remaining := srcEnd - src;
      assert 0 < remaining < 3;
      var symbols := if remaining == 1 then 2 else 3;
      ghost var tail := [Symbol(Index0(bytes[src]))];
      result := result + [Symbol(Index0(bytes[src]))];
      if symbols == 2 {
        Append(blocks, tail, Symbol(Index1(bytes[src], 0)));
        tail := tail + [Symbol(Index1(bytes[src], 0))];
        result := result + [Symbol(Index1(bytes[src], 0))];
      } else {
        Append(blocks, tail, Symbol(Index1(bytes[src], bytes[src + 1])));
        tail := tail + [Symbol(Index1(bytes[src], bytes[src + 1]))];
        result := result + [Symbol(Index1(bytes[src], bytes[src + 1]))];
        Append(blocks, tail, Symbol(Index2(bytes[src + 1], 0)));
        tail := tail + [Symbol(Index2(bytes[src + 1], 0))];
        result := result + [Symbol(Index2(bytes[src + 1], 0))];
      }
      var i := 0;
      while i < 4 - symbols
        invariant 0 <= i <= 4 - symbols
        invariant result == blocks + (tail + Padding(i))
      {
        Append(blocks, tail + Padding(i), '=');
        Append(tail, Padding(i), '=');
        PaddingNext(i);
        result := result + ['='];
        i := i + 1;
      }
    }
    EncodedLength(bytes);
  }

  lemma Append(s: string, t: string, c: char)
    ensures s + t + [c] == s + (t + [c])
  {
  }

  lemma BlockStep(result: string, bytes: seq<Byte>, src: nat)
    requires src + 3 <= |bytes|
    ensures result + Encoded(bytes[src..])
            == result + EncodedBlock(bytes[src], bytes[src + 1], bytes[src + 2]) + Encoded(bytes[src + 3..])
  {
  }

  lemma TailStep(tail: seq<Byte>)
    requires |tail| < 3
    ensures Encoded(tail) == if |tail| == 0 then []
      else if |tail| == 1 then [Symbol(Index0(tail[0]))] + [Symbol(Index1(tail[0], 0))] + Padding(2)
      else [Symbol(Index0(tail[0]))] + [Symbol(Index1(tail[0], tail[1]))] + [Symbol(Index2(tail[1], 0))] + Padding(1)
    ensures forall t: string :: t + Padding(0) == t
  {
  }

  // ----- Decoding -----

  datatype Error = SymbolError(symbol: char) | PaddingError | InvalidInputLength
  datatype Result = Ok(bytes: seq<Byte>) | Err(error: Error)

  // decode_block: four indices as one 24-bit number.
  function DecodedBlock(i0: Index, i1: Index, i2: Index, i3: Index): (bytes: seq<Byte>)
    ensures |bytes| == 3
  {
    var dec := i0 * 0x4_0000 + i1 * 0x1000 + i2 * 0x40 + i3;
    [dec / 0x1_0000, dec / 0x100 % 0x100, dec % 0x100]
  }

  // The bytes of decode_tail; the low bits of the last symbol are not looked at.
  function FirstOfTail(i0: Index, i1: Index): Byte { i0 * 4 + i1 / 16 }
  function SecondOfTail(i1: Index, i2: Index): Byte { i1 % 16 * 16 + i2 / 4 }

  // decode_tail.
  function TailBytes(indexes: seq<nat>, length: nat): Result
    requires |indexes| == 4 && 1 <= length <= 3 && forall j :: 0 <= j < length ==> indexes[j] < 64
  {
    if length == 1 then Err(InvalidInputLength)
    else if length == 2 then Ok([FirstOfTail(indexes[0], indexes[1])])
    else Ok([FirstOfTail(indexes[0], indexes[1]), SecondOfTail(indexes[1], indexes[2])])
  }

  // The symbols at the front, at most three.
  function SymbolRun(s: string): (k: nat)
    ensures k <= |s| && k <= 3
    ensures forall j :: 0 <= j < k ==> InAlphabet(s[j])
    ensures k < 3 && k < |s| ==> !InAlphabet(s[k])
  {
    if |s| == 0 || !InAlphabet(s[0]) then 0
    else if |s| == 1 || !InAlphabet(s[1]) then 1
    else if |s| == 2 || !InAlphabet(s[2]) then 2
    else 3
  }

  // The padding characters at the front.
  function PaddingRun(s: string): (p: nat)
    ensures p <= |s|
    ensures forall j :: 0 <= j < p ==> s[j] == '='
    ensures p < |s| ==> s[p] != '='
  {
    if s == [] || s[0] != '=' then 0 else 1 + PaddingRun(s[1..])
  }

  predicate Ends(s: string, at: nat)
    requires at <= |s|
  {
    at == |s| || s[at] == '\0'
  }

  predicate StartsWithBlock(s: string) {
    |s| >= 4 && InAlphabet(s[0]) && InAlphabet(s[1]) && InAlphabet(s[2]) && InAlphabet(s[3])
  }

  // What is left when no full block is at the front: nothing, or two or three
  // symbols padded to four characters. A NUL ends the input.
  function DecodedTail(s: string): (r: Result)
    ensures r.Ok? ==> |r.bytes| < 3
  {
    var k := SymbolRun(s);
    if Ends(s, k) then if k == 0 then Ok([]) else Err(PaddingError)
    else if s[k] != '=' then Err(SymbolError(s[k]))
    else if k == 0 then Err(PaddingError)
    else
      var p := PaddingRun(s[k..]);
      if k + p != 4 || !Ends(s, 4) then Err(PaddingError)
      else if k == 1 then Err(InvalidInputLength)
      else if k == 2 then Ok([FirstOfTail(Lookup(s[0]), Lookup(s[1]))])
      else Ok([FirstOfTail(Lookup(s[0]), Lookup(s[1])), SecondOfTail(Lookup(s[1]), Lookup(s[2]))])
  }

  function Prepend(bytes: seq<Byte>, r: Result): Result {
    match r
    case Ok(rest) => Ok(bytes + rest)
    case Err(e) => Err(e)
  }

  function Decoded(s: string): Result {
    if StartsWithBlock(s) then
      Prepend(DecodedBlock(Lookup(s[0]), Lookup(s[1]), Lookup(s[2]), Lookup(s[3])), Decoded(s[4..]))
    else DecodedTail(s)
  }

  // ----- Round trip -----

  lemma BlockRoundTrip(b0: Byte, b1: Byte, b2: Byte)
    ensures DecodedBlock(Index0(b0), Index1(b0, b1), Index2(b1, b2), Index3(b2)) == [b0, b1, b2]
  {
    hide Index0, Index1, Index2, Index3;
    FourIndices(b0, b1, b2);
    ThreeBytes(b0, b1, b2);
  }

  lemma FourIndices(b0: Byte, b1: Byte, b2: Byte)
    ensures Index0(b0) * 0x4_0000 + Index1(b0, b1) as int * 0x1000 + Index2(b1, b2) as int * 0x40 + Index3(b2) as int
            == b0 * 0x1_0000 + b1 as int * 0x100 + b2 as int
  {
  }

  lemma ThreeBytes(b0: int, b1: int, b2: int)
    requires 0 <= b0 < 256 && 0 <= b1 < 256 && 0 <= b2 < 256
    ensures var dec := b0 * 0x1_0000 + b1 * 0x100 + b2;
            dec / 0x1_0000 == b0 && dec / 0x100 % 0x100 == b1 && dec % 0x100 == b2
  {
  }

  lemma TailRoundTrip(b0: Byte, b1: Byte)
    ensures FirstOfTail(Index0(b0), Index1(b0, b1)) == b0
    ensures SecondOfTail(Index1(b0, b1), Index2(b1, 0)) == b1
  {
  }

  lemma {:induction false} DecodeEncoded(bytes: seq<Byte>)
    ensures Decoded(Encoded(bytes)) == Ok(bytes)
  {
    hide Symbol, Index0, Index1, Index2, Index3, Lookup, DecodedBlock, DecodedTail, EncodedTail;
    if |bytes| >= 3 {
      var b0, b1, b2 := bytes[0], bytes[1], bytes[2];
      LookupSymbol(Index0(b0)); LookupSymbol(Index1(b0, b1)); LookupSymbol(Index2(b1, b2)); LookupSymbol(Index3(b2));
      BlockRoundTrip(b0, b1, b2);
      DecodeEncoded(bytes[3..]);
      var s := Encoded(bytes);
      assert s[4..] == Encoded(bytes[3..]);
      assert bytes == [b0, b1, b2] + bytes[3..];
    } else {
      DecodeTail(bytes);
    }
  }

  lemma DecodeTail(tail: seq<Byte>)
    requires |tail| < 3
    ensures !StartsWithBlock(EncodedTail(tail)) && DecodedTail(EncodedTail(tail)) == Ok(tail)
  {
    hide Symbol, Index0, Index1, Index2, Lookup, FirstOfTail, SecondOfTail;
    var s := EncodedTail(tail);
    PaddingIsOutside();
    if |tail| == 1 {
      LookupSymbol(Index0(tail[0])); LookupSymbol(Index1(tail[0], 0));
      TailRoundTrip(tail[0], 0);
      assert s[2..] == Padding(2);
      PaddingRunOf(2);
    } else if |tail| == 2 {
      LookupSymbol(Index0(tail[0])); LookupSymbol(Index1(tail[0], tail[1])); LookupSymbol(Index2(tail[1], 0));
      TailRoundTrip(tail[0], tail[1]);
      assert s[3..] == Padding(1);
      PaddingRunOf(1);
    }
  }

  lemma PaddingIsOutside()
    ensures !InAlphabet('=') && !InAlphabet('\0')
  {
    LookupCases('=');
    LookupCases('\0');
  }

  lemma {:induction false} PaddingRunOf(n: nat)
    ensures PaddingRun(Padding(n)) == n
  {
  }

  // ----- What is accepted -----

  // decoded_max_size.
  function DecodedMaxSize(n: nat): nat { n / 4 * 3 }

  lemma {:induction false} DecodedFits(s: string)
    requires Decoded(s).Ok?
    ensures |Decoded(s).bytes| <= DecodedMaxSize(|s|)
  {
    hide Lookup, DecodedBlock, InAlphabet;
    if StartsWithBlock(s) {
      DecodedFits(s[4..]);
    } else if SymbolRun(s) > 0 {
      hide SymbolRun, PaddingRun;
    }
  }

  // The input up to the first NUL.
  function Body(s: string): string {
    if s == [] || s[0] == '\0' then [] else [s[0]] + Body(s[1..])
  }

  // One block of two or three symbols and padding.
  predicate IsTail(b: string) {
    |b| == 4 && InAlphabet(b[0]) && InAlphabet(b[1]) && b[3] == '=' && (b[2] == '=' || InAlphabet(b[2]))
  }

  // Section 4 of RFC 4648: blocks of four symbols, the last one possibly
  // padded.
  predicate WellFormed(b: string) {
    if StartsWithBlock(b) then WellFormed(b[4..]) else b == [] || IsTail(b)
  }

  lemma BodyOfBlock(s: string)
    requires StartsWithBlock(s)
    ensures Body(s) == s[..4] + Body(s[4..])
  {
    hide InAlphabet;
    PaddingIsOutside();
    BodyStep(s); BodyStep(s[1..]); BodyStep(s[2..]); BodyStep(s[3..]);
    assert s[1..][1..] == s[2..] && s[2..][1..] == s[3..] && s[3..][1..] == s[4..];
    assert s[..4] == [s[0]] + ([s[1]] + ([s[2]] + [s[3]]));
  }

  lemma BodyStep(s: string)
    requires s != [] && s[0] != '\0'
    ensures Body(s) == [s[0]] + Body(s[1..])
  {
  }

  lemma {:induction false} BodyPrefix(s: string, n: nat)
    requires n <= |s| && Ends(s, n) && forall j :: 0 <= j < n ==> s[j] != '\0'
    ensures Body(s) == s[..n]
    decreases n
  {
    if n > 0 {
      BodyPrefix(s[1..], n - 1);
      assert s[..n] == [s[0]] + s[1..][..n - 1];
    }
  }

  lemma {:induction false} BodyShape(s: string)
    ensures |Body(s)| <= |s| && Body(s) == s[..|Body(s)|] && Ends(s, |Body(s)|)
    ensures forall j :: 0 <= j < |Body(s)| ==> s[j] != '\0'
  {
    if s != [] && s[0] != '\0' {
      BodyShape(s[1..]);
      var n := |Body(s[1..])|;
      assert s[..n + 1] == [s[0]] + s[1..][..n];
      forall j | 0 <= j < n + 1 ensures s[j] != '\0' {
        if j > 0 { assert s[j] == s[1..][j - 1]; }
      }
    }
  }

  lemma RunIs(s: string, k: nat, p: nat)
    requires k + p <= |s| && forall j :: k <= j < k + p ==> s[j] == '='
    requires k + p < |s| ==> s[k + p] != '='
    ensures PaddingRun(s[k..]) == p
  {
  }

  lemma TailAccepts(s: string)
    requires !StartsWithBlock(s)
    ensures DecodedTail(s).Ok? <==> Body(s) == [] || IsTail(Body(s))
  {
    hide InAlphabet, Lookup, FirstOfTail, SecondOfTail, PaddingRun, SymbolRun, Body;
    PaddingIsOutside();
    BodyShape(s);
    var k, b := SymbolRun(s), Body(s);
    if DecodedTail(s).Ok? && k > 0 {
      var p := PaddingRun(s[k..]);
      assert forall j :: k <= j < k + p ==> s[j] == s[k..][j - k];
      BodyPrefix(s, 4);
    }
    if IsTail(b) {
      RunIs(s, k, 4 - k);
    }
  }

  // Decoding succeeds exactly on well-formed input, up to a NUL if there is
  // one.
  lemma {:induction false} AcceptsIffWellFormed(s: string)
    ensures Decoded(s).Ok? <==> WellFormed(Body(s))
  {
    hide InAlphabet, Lookup, DecodedTail, DecodedBlock, Body, IsTail;
    if StartsWithBlock(s) {
      BodyOfBlock(s);
      AcceptsIffWellFormed(s[4..]);
      assert Body(s)[4..] == Body(s[4..]);
    } else {
      TailAccepts(s);
      BodyShape(s);
      PaddingIsOutside();
      assert !StartsWithBlock(Body(s));
    }
  }

  // ----- What the result is -----

  lemma BlockBytes(i0: Index, i1: Index, i2: Index, i3: Index)
    ensures DecodedBlock(i0, i1, i2, i3) == [i0 * 4 + i1 / 16, i1 % 16 * 16 + i2 / 4, i2 % 4 * 64 + i3]
  {
    var a, b: int, c: int := i0 * 4 + i1 / 16, i1 % 16 * 16 + i2 / 4, i2 % 4 * 64 + i3;
    assert i0 * 0x4_0000 + i1 as int * 0x1000 + i2 as int * 0x40 + i3 as int == a * 0x1_0000 + b * 0x100 + c;
    ThreeBytes(a, b, c);
  }

  // The eight bits from bit 8 * i on, in two symbols of six bits each.
  function EightBits(x: Index, y: Index, i: nat): Byte {
    var window := x * 64 + y;
    if i % 3 == 0 then window / 16 else if i % 3 == 1 then window / 4 % 256 else window % 256
  }

  lemma EightBitsAre(x: Index, y: Index)
    ensures (x * 64 + y) / 16 == x * 4 + y / 16
    ensures (x * 64 + y) / 4 % 256 == x % 16 * 16 + y / 4
    ensures (x * 64 + y) % 256 == x % 4 * 64 + y
  {
    var m: int := y / 4;
    assert (x * 64 + y) / 4 == x * 16 + m;
    LowBits(x / 16, x % 16 * 16 + m);
    LowBits(x / 4, x % 4 * 64 + y as int);
  }

  lemma LowBits(q: int, r: int)
    requires 0 <= r < 256
    ensures (256 * q + r) % 256 == r
  {
  }

  lemma {:induction false} DecodedWindow(s: string, i: nat)
    requires Decoded(s).Ok? && i < |Decoded(s).bytes|
    ensures var k := 8 * i / 6;
            && k + 1 < |s| && InAlphabet(s[k]) && InAlphabet(s[k + 1])
            && Decoded(s).bytes[i] == EightBits(Lookup(s[k]), Lookup(s[k + 1]), i)
    decreases |s|
  {
    hide Lookup, InAlphabet, DecodedBlock, PaddingRun, SymbolRun, Ends, EightBits;
    if StartsWithBlock(s) {
      BlockDigits(s);
      if i >= 3 {
        DecodedWindow(s[4..], i - 3);
        NextBlockIndex(i);
        var k := 8 * i / 6;
        assert s[4..][k - 4] == s[k] && s[4..][k - 3] == s[k + 1];
        SymbolOf(s[k]); SymbolOf(s[k + 1]);
        EightBitsNext(Lookup(s[k]), Lookup(s[k + 1]), i);
      } else {
        FirstDigits(s, i);
      }
    } else {
      TailDigits(s, i);
    }
  }

  lemma BlockDigits(s: string)
    requires StartsWithBlock(s) && Decoded(s).Ok?
    ensures Decoded(s[4..]).Ok?
    ensures Decoded(s).bytes
            == DecodedBlock(Lookup(s[0]), Lookup(s[1]), Lookup(s[2]), Lookup(s[3])) + Decoded(s[4..]).bytes
  {
    hide Lookup, DecodedBlock, DecodedTail;
  }

  lemma NextBlockIndex(i: nat)
    requires i >= 3
    ensures 8 * i / 6 == 8 * (i - 3) / 6 + 4
  {
    assert 8 * i == 8 * (i - 3) + 24;
  }

  lemma EightBitsNext(x: Index, y: Index, i: nat)
    requires i >= 3
    ensures EightBits(x, y, i) == EightBits(x, y, i - 3)
  {
    assert (i - 3) % 3 == i % 3;
  }

  lemma FirstDigits(s: string, i: nat)
    requires StartsWithBlock(s) && i < 3
    ensures 8 * i / 6 == i
    ensures var k := 8 * i / 6;
            DecodedBlock(Lookup(s[0]), Lookup(s[1]), Lookup(s[2]), Lookup(s[3]))[i]
            == EightBits(Lookup(s[k]), Lookup(s[k + 1]), i)
  {
    hide Lookup, DecodedBlock;
    BlockBytes(Lookup(s[0]), Lookup(s[1]), Lookup(s[2]), Lookup(s[3]));
    EightBitsAre(Lookup(s[i]), Lookup(s[i + 1]));
    assert 8 * i / 6 == i;
  }

  lemma TailDigits(s: string, i: nat)
    requires DecodedTail(s).Ok? && i < |DecodedTail(s).bytes|
    ensures 8 * i / 6 == i && i + 1 < |s| && InAlphabet(s[i]) && InAlphabet(s[i + 1])
    ensures DecodedTail(s).bytes[i] == EightBits(Lookup(s[i]), Lookup(s[i + 1]), i)
  {
    hide Lookup, PaddingRun, SymbolRun, Ends;
    EightBitsAre(Lookup(s[i]), Lookup(s[i + 1]));
  }

  // Byte i of the result is what the symbols stand for from bit 8 * i on; x and
  // y are their places in the alphabet.
  lemma DecodedDigits(s: string, i: nat) returns (x: Index, y: Index)
    requires Decoded(s).Ok? && i < |Decoded(s).bytes|
    ensures var k := 8 * i / 6;
            k + 1 < |s| && |ALPHABET| == 64 && s[k] == ALPHABET[x] && s[k + 1] == ALPHABET[y]
    ensures Decoded(s).bytes[i] == EightBits(x, y, i)
  {
    hide Decoded, Lookup, InAlphabet, Symbol, ALPHABET, EightBits;
    DecodedWindow(s, i);
    var k := 8 * i / 6;
    SymbolOf(s[k]);
    SymbolOf(s[k + 1]);
    x, y := Lookup(s[k]), Lookup(s[k + 1]);
    SymbolListed(x);
    SymbolListed(y);
  }

  // Three bytes for four characters, less one for each padding character.
  lemma {:induction false} DecodedCount(s: string)
    requires Decoded(s).Ok?
    ensures var b := Body(s);
            && |b| % 4 == 0
            && |Decoded(s).bytes| == |b| / 4 * 3
                - (if b == [] || b[|b| - 1] != '=' then 0 else if b[|b| - 2] != '=' then 1 else 2)
    decreases |s|
  {
    hide Lookup, InAlphabet, DecodedBlock, DecodedTail, Body;
    if StartsWithBlock(s) {
      BlockDigits(s);
      BodyOfBlock(s);
      DecodedCount(s[4..]);
      SymbolOf(s[3]);
      assert Body(s)[4..] == Body(s[4..]);
    } else {
      TailCount(s);
    }
  }

  lemma TailCount(s: string)
    requires !StartsWithBlock(s) && DecodedTail(s).Ok?
    ensures var b := Body(s);
            && (b == [] ==> DecodedTail(s).bytes == [])
            && (b != [] ==> |b| == 4 && b[3] == '=' && |DecodedTail(s).bytes| == if b[2] == '=' then 1 else 2)
  {
    hide InAlphabet, Lookup, FirstOfTail, SecondOfTail, PaddingRun, SymbolRun, Body;
    PaddingIsOutside();
    BodyShape(s);
    TailAccepts(s);
    var k := SymbolRun(s);
    if k > 0 {
      var p := PaddingRun(s[k..]);
      assert forall j :: k <= j < k + p ==> s[j] == s[k..][j - k];
      BodyPrefix(s, 4);
    }
  }

  lemma InAlphabetIs(c: char)
    ensures InAlphabet(c) <==> c in ALPHABET
  {
    hide Symbol, ALPHABET, Lookup;
    if InAlphabet(c) {
      LookupCases(c);
      AlphabetIs(Lookup(c));
    }
    AlphabetIs(0);
    if c in ALPHABET {
      var i :| 0 <= i < |ALPHABET| && ALPHABET[i] == c;
      AlphabetIs(i);
    }
  }

  // A lone symbol in the last block, although it is padded.
  ghost predicate LoneSymbol(s: string, n: nat)
    requires n <= |s|
  {
    n % 4 == 1 && n + 3 <= |s| && s[n] == '=' && s[n + 1] == '=' && s[n + 2] == '=' && Ends(s, n + 3)
  }

  // Which error it is, n being the number of symbols at the front.
  lemma {:induction false} DecodedErrors(s: string, n: nat)
    requires n <= |s| && forall j :: 0 <= j < n ==> s[j] in ALPHABET
    requires n < |s| ==> s[n] !in ALPHABET
    ensures if n < |s| && s[n] != '\0' && s[n] != '=' then Decoded(s) == Err(SymbolError(s[n]))
            else if LoneSymbol(s, n) then Decoded(s) == Err(InvalidInputLength)
            else Decoded(s) == Err(PaddingError) || Decoded(s).Ok?
    decreases |s|
  {
    hide Lookup, InAlphabet, DecodedBlock, DecodedTail, Ends, ALPHABET;
    if n >= 4 {
      InAlphabetIs(s[0]); InAlphabetIs(s[1]); InAlphabetIs(s[2]); InAlphabetIs(s[3]);
      LoneSymbolLater(s, n);
      DecodedErrors(s[4..], n - 4);
    } else {
      forall j | 0 <= j <= n && j < |s| ensures InAlphabet(s[j]) <==> j < n { InAlphabetIs(s[j]); }
      TailErrors(s, n);
    }
  }

  lemma LoneSymbolLater(s: string, n: nat)
    requires 4 <= n <= |s|
    ensures LoneSymbol(s[4..], n - 4) == LoneSymbol(s, n)
  {
  }

  lemma TailErrors(s: string, n: nat)
    requires n < 4 && n <= |s| && forall j :: 0 <= j <= n && j < |s| ==> (InAlphabet(s[j]) <==> j < n)
    ensures !StartsWithBlock(s)
    ensures if n < |s| && s[n] != '\0' && s[n] != '=' then DecodedTail(s) == Err(SymbolError(s[n]))
            else if LoneSymbol(s, n) then DecodedTail(s) == Err(InvalidInputLength)
            else DecodedTail(s) == Err(PaddingError) || DecodedTail(s).Ok?
  {
    hide Lookup, InAlphabet, FirstOfTail, SecondOfTail, PaddingRun;
    if n > 0 && n < |s| && s[n] == '=' {
      PaddingIsOutside();
      if LoneSymbol(s, n) {
        RunIs(s, 1, 3);
      }
      var p := PaddingRun(s[n..]);
      assert forall j :: n <= j < n + p ==> s[j] == s[n..][j - n];
    }
  }

  // The bound of decoded_max_size is reached for every multiple of four.
  lemma MaxSizeReached(n: nat) returns (s: string)
    requires n % 4 == 0
    ensures |s| == n && Decoded(s).Ok? && |Decoded(s).bytes| == DecodedMaxSize(n)
  {
    var bytes: seq<Byte> := seq(n / 4 * 3, _ => 0);
    s := Encoded(bytes);
    hide Encoded, Decoded;
    EncodedLength(bytes);
    EncodedSizeIs(|bytes|, n / 4);
    DecodeEncoded(bytes);
  }

  // ----- Encoding again -----

  // The bits of the last symbol that are not looked at are zero.
  predicate ZeroTailBits(b: string) {
    if StartsWithBlock(b) then ZeroTailBits(b[4..])
    else |b| == 4 ==> if b[2] == '=' then Lookup(b[1]) % 16 == 0 else Lookup(b[2]) % 4 == 0
  }

  lemma BlockFromIndices(i0: Index, i1: Index, i2: Index, i3: Index)
    ensures var d := DecodedBlock(i0, i1, i2, i3);
            Index0(d[0]) == i0 && Index1(d[0], d[1]) == i1 && Index2(d[1], d[2]) == i2 && Index3(d[2]) == i3
  {
    var a, b: int, c: int := i0 * 4 + i1 / 16, i1 % 16 * 16 + i2 / 4, i2 % 4 * 64 + i3;
    assert i0 * 0x4_0000 + i1 as int * 0x1000 + i2 as int * 0x40 + i3 as int == a * 0x1_0000 + b * 0x100 + c;
    ThreeBytes(a, b, c);
    assert DecodedBlock(i0, i1, i2, i3) == [a, b, c];
    assert a / 4 == i0 && a % 4 == i1 / 16 && b / 16 == i1 % 16 && b % 16 == i2 / 4 && c / 64 == i2 % 4 && c % 64 == i3;
  }

  lemma TailFromIndices(i0: Index, i1: Index, i2: Index)
    ensures Index0(FirstOfTail(i0, i1)) == i0
    ensures Index1(FirstOfTail(i0, i1), 0) == i1 <==> i1 % 16 == 0
    ensures Index1(FirstOfTail(i0, i1), SecondOfTail(i1, i2)) == i1
    ensures Index2(SecondOfTail(i1, i2), 0) == i2 <==> i2 % 4 == 0
  {
  }

  lemma TailReencoded(s: string)
    requires !StartsWithBlock(s) && DecodedTail(s).Ok?
    ensures EncodedTail(DecodedTail(s).bytes) == Body(s) <==> ZeroTailBits(Body(s))
  {
    hide InAlphabet, Lookup, FirstOfTail, SecondOfTail, PaddingRun, SymbolRun, Body, Symbol, Index0, Index1, Index2;
    PaddingIsOutside();
    BodyShape(s);
    TailAccepts(s);
    var b := Body(s);
    var k := SymbolRun(s);
    if k > 0 {
      var p := PaddingRun(s[k..]);
      assert forall j :: k <= j < k + p ==> s[j] == s[k..][j - k];
      BodyPrefix(s, 4);
      var i0, i1 := Lookup(b[0]), Lookup(b[1]);
      SymbolOf(b[0]); SymbolOf(b[1]);
      if k == 2 {
        TailFromIndices(i0, i1, 0);
        SymbolsSame(Index1(FirstOfTail(i0, i1), 0), i1);
        PaddingPair();
      } else {
        SymbolOf(b[2]);
        var i2 := Lookup(b[2]);
        TailFromIndices(i0, i1, i2);
        SymbolsSame(Index2(SecondOfTail(i1, i2), 0), i2);
        PaddingPair();
      }
    }
  }

  lemma PaddingPair()
    ensures Padding(1) == ['='] && Padding(2) == ['=', '=']
  {
  }

  lemma SymbolOf(c: char)
    requires InAlphabet(c)
    ensures Lookup(c) < 64 && Symbol(Lookup(c)) == c && c != '='
  {
    LookupCases(c);
  }

  lemma SymbolsSame(i: Index, j: Index)
    ensures Symbol(i) == Symbol(j) <==> i == j
  {
  }

  // Encoding what was decoded gives the input back exactly when the unused
  // bits of its last symbol are zero.
  lemma {:induction false} ReencodesIffZeroTailBits(s: string)
    requires Decoded(s).Ok?
    ensures Encoded(Decoded(s).bytes) == Body(s) <==> ZeroTailBits(Body(s))
  {
    if StartsWithBlock(s) {
      ReencodesIffZeroTailBits(s[4..]);
      BlockReencoded(s);
      hide *;
      var rest := Encoded(Decoded(s[4..]).bytes);
      assert (s[..4] + rest)[4..] == rest && (s[..4] + Body(s[4..]))[4..] == Body(s[4..]);
    } else {
      TailReencoded(s);
      assert |Decoded(s).bytes| < 3;
    }
  }

  lemma BlockReencoded(s: string)
    requires StartsWithBlock(s) && Decoded(s).Ok?
    ensures Decoded(s[4..]).Ok? && Encoded(Decoded(s).bytes) == s[..4] + Encoded(Decoded(s[4..]).bytes)
    ensures Body(s) == s[..4] + Body(s[4..])
    ensures ZeroTailBits(Body(s)) == ZeroTailBits(Body(s[4..]))
  {
    hide Lookup, DecodedTail, DecodedBlock, Body, Symbol, EncodedTail, InAlphabet, Index0, Index1, Index2, Index3;
    BodyOfBlock(s);
    var rest := Decoded(s[4..]).bytes;
    SymbolOf(s[0]); SymbolOf(s[1]); SymbolOf(s[2]); SymbolOf(s[3]);
    var d := DecodedBlock(Lookup(s[0]), Lookup(s[1]), Lookup(s[2]), Lookup(s[3]));
    BlockFromIndices(Lookup(s[0]), Lookup(s[1]), Lookup(s[2]), Lookup(s[3]));
    var bytes := Decoded(s).bytes;
    assert bytes[3..] == rest && bytes[0] == d[0] && bytes[1] == d[1] && bytes[2] == d[2];
    assert EncodedBlock(bytes[0], bytes[1], bytes[2]) == s[..4];
    assert Body(s)[4..] == Body(s[4..]);
  }

  // Two inputs, one result: only the first is what the encoder writes.
  lemma DecodingIsNotInjective()
    ensures Decoded("QQ==") == Decoded("QR==") == Ok([65])
    ensures Encoded([65]) == "QQ=="
  {
    assert Symbol(16) == 'Q' && Symbol(17) == 'R';
    LookupSymbol(16);
    LookupSymbol(17);
    PaddingIsOutside();
    hide Lookup, Symbol;
    PaddingPair();
    var s, t := "QQ==", "QR==";
    RunIs(s, 2, 2);
    RunIs(t, 2, 2);
  }

  // ----- The decoder -----

  // The first indices are those of the symbols read since the last block.
  ghost predicate Buffered(read: string, ix: seq<nat>) {
    |read| <= |ix| == 4 && forall j :: 0 <= j < |read| ==> ix[j] == Lookup(read[j]) && ix[j] < 64
  }

  // The others are left over from earlier blocks, or the initial mark.
  ghost predicate Stale(ptr: nat, ix: seq<nat>) {
    |ix| == 4 && forall j :: ptr <= j < 4 ==> ix[j] < 64 || ix[j] == EOF_IDX
  }

  lemma BufferSymbol(read: string, c: char, ix: seq<nat>)
    requires Buffered(read, ix) && Stale(|read|, ix) && |read| < 4
    ensures var ix' := ix[|read| := Lookup(c)];
            && (!IsStop(Lookup(c)) ==> Buffered(read + [c], ix') && Stale(|read| + 1, ix'))
            && Buffered(read, ix')
  {
    LookupCases(c);
    hide Lookup;
  }

  lemma StaleMark(ptr: nat, ix: seq<nat>)
    requires Stale(ptr, ix) && ptr < 4
    ensures ix[ptr] != INVALID_IDX && ix[ptr] != PADDING_IDX
  {
  }

  lemma BufferFull(read: string, rest: string, ix: seq<nat>)
    requires Buffered(read, ix) && |read| == 4
    ensures ix[0] < 64 && ix[1] < 64 && ix[2] < 64 && ix[3] < 64
    ensures Decoded(read + rest) == Prepend(DecodedBlock(ix[0], ix[1], ix[2], ix[3]), Decoded(rest))
    ensures Buffered([], ix) && Stale(0, ix)
  {
  }

  lemma PrependTwice(out: seq<Byte>, bytes: seq<Byte>, r: Result)
    ensures Prepend(out, Prepend(bytes, r)) == Prepend(out + bytes, r)
  {
  }

  lemma Begin(s: string, ix: seq<nat>)
    requires Stale(0, ix)
    ensures Buffered([], ix) && Prepend([], Decoded(s)) == Decoded(s)
  {
  }

  // Fewer than four symbols, and then the end or a stop character.
  lemma BlockIncomplete(read: string, rest: string, ix: seq<nat>)
    requires Buffered(read, ix) && |read| < 4 && (rest != [] ==> IsStop(Lookup(rest[0])))
    ensures SymbolRun(read + rest) == |read| && Decoded(read + rest) == DecodedTail(read + rest)
  {
  }

  lemma TailWithoutPadding(t: string, ptr: nat)
    requires SymbolRun(t) == ptr
    ensures ptr == |t| ==> DecodedTail(t) == if ptr == 0 then Ok([]) else Err(PaddingError)
    ensures ptr < |t| ==> var index := Lookup(t[ptr]);
      && (index == INVALID_IDX ==> DecodedTail(t) == Err(SymbolError(t[ptr])))
      && (IsStop(index) && index != INVALID_IDX && index != PADDING_IDX ==>
            DecodedTail(t) == if ptr == 0 then Ok([]) else Err(PaddingError))
      && (index == PADDING_IDX ==> t[ptr] == '=' && (ptr == 0 ==> DecodedTail(t) == Err(PaddingError)))
  {
    hide SymbolRun, PaddingRun, Lookup, FirstOfTail, SecondOfTail;
    if ptr < |t| { LookupCases(t[ptr]); }
  }

  ghost predicate PaddedTo(t: string, ptr: nat, last: nat) {
    ptr <= last <= |t| && forall j :: ptr <= j < last ==> t[j] == '='
  }

  lemma TailWithPadding(t: string, ptr: nat, last: nat)
    requires SymbolRun(t) == ptr && 0 < ptr < last && PaddedTo(t, ptr, last)
    ensures last > 4 ==> DecodedTail(t) == Err(PaddingError)
    ensures last < |t| && t[last] != '\0' && t[last] != '=' ==> DecodedTail(t) == Err(PaddingError)
    ensures Ends(t, last) && last != 4 ==> DecodedTail(t) == Err(PaddingError)
    ensures Ends(t, last) && last == 4 && ptr == 1 ==> DecodedTail(t) == Err(InvalidInputLength)
    ensures Ends(t, last) && last == 4 && ptr == 2 ==> DecodedTail(t) == Ok([FirstOfTail(Lookup(t[0]), Lookup(t[1]))])
    ensures Ends(t, last) && last == 4 && ptr == 3 ==>
      DecodedTail(t) == Ok([FirstOfTail(Lookup(t[0]), Lookup(t[1])), SecondOfTail(Lookup(t[1]), Lookup(t[2]))])
  {
  }

  // One more character of the padding loop.
  lemma PaddingRead(t: string, ptr: nat, last: nat, read: string, ix: seq<nat>)
    requires SymbolRun(t) == ptr == |read| < 4 && ptr <= last < |t| && PaddedTo(t, ptr, last) && Buffered(read, ix)
    requires ptr > 0
    ensures Buffered(read, ix[ptr := Lookup(t[last])]) && Buffered(read, ix[ptr := PADDING_IDX])
    ensures Lookup(t[last]) == EOF_IDX ==> Ends(t, last)
    ensures Lookup(t[last]) == PADDING_IDX ==> PaddedTo(t, ptr, last + 1)
    ensures Lookup(t[last]) == PADDING_IDX && last >= 4 ==> DecodedTail(t) == Err(PaddingError)
    ensures last > ptr && Lookup(t[last]) != EOF_IDX && Lookup(t[last]) != PADDING_IDX ==>
      DecodedTail(t) == Err(PaddingError)
  {
    LookupCases(t[last]);
    hide Lookup, DecodedTail, SymbolRun;
    if t[last] == '=' { TailWithPadding(t, ptr, last + 1); }
    if last > ptr { TailWithPadding(t, ptr, last); }
  }

  // Tail bytes from the buffer.
  lemma TailFromBuffer(t: string, ptr: nat, read: string, ix: seq<nat>)
    requires SymbolRun(t) == ptr == |read| && read <= t && 0 < ptr < 4 && PaddedTo(t, ptr, 4) && Ends(t, 4)
    requires Buffered(read, ix)
    ensures |ix| == 4 && (forall j :: 0 <= j < ptr ==> ix[j] < 64) && DecodedTail(t) == TailBytes(ix, ptr)
  {
  }

  lemma NoTail(t: string, ptr: nat, last: nat)
    requires SymbolRun(t) == ptr && 0 < ptr < last && PaddedTo(t, ptr, last) && Ends(t, last) && last != 4
    ensures DecodedTail(t) == Err(PaddingError)
  {
  }

  lemma EndsThere(t: string)
    ensures Ends(t, |t|)
  {
  }

  // After the first padding character: count the others in last, and keep
  // each index in the same slot, so that too long an input cannot overrun the
  // buffer.
  method ReadPadding(indexes: array<nat>, s: string, start: nat, ptr: nat, ghost t: string, ghost read: string)
    returns (valid: bool, last: nat)
    requires indexes.Length == 4 && 0 < ptr < 4 && 1 <= start <= |s|
    requires SymbolRun(t) == ptr == |read| && Buffered(read, indexes[..])
    requires |t| == ptr + 1 + |s| - start && t[ptr + 1..] == s[start..] && t[ptr] == '='
    modifies indexes
    ensures !valid ==> DecodedTail(t) == Err(PaddingError)
    ensures valid ==> ptr < last <= 4 && PaddedTo(t, ptr, last) && Ends(t, last) && Buffered(read, indexes[..])
  {
    hide *;
    PaddingStarts(t, ptr);
    var src := start;
    last := ptr + 1;
    if src == |s| { EndsThere(t); }
    while src < |s|
      invariant ptr < last <= 4 && start <= src <= |s| && src - start == last - ptr - 1
      invariant Buffered(read, indexes[..])
      invariant PaddedTo(t, ptr, last)
      invariant src == |s| ==> Ends(t, last)
    {
      assert t[last] == t[ptr + 1..][last - ptr - 1] == s[src];
      PaddingRead(t, ptr, last, read, indexes[..]);
      ghost var ix := indexes[..];
      indexes[ptr] := Lookup(s[src]);
      src := src + 1;
      if indexes[ptr] == EOF_IDX {
        indexes[ptr] := PADDING_IDX;
        assert indexes[..] == ix[ptr := PADDING_IDX];
        break;
      }
      if indexes[ptr] != PADDING_IDX {
        return false, last;
      }
      last := last + 1;
      if last > 4 {
        return false, last;
      }
      if src == |s| { EndsThere(t); }
    }
    valid := true;
  }

  // The first loop: full blocks, then up to three symbols and the end of the
  // input or a stop character, whose index is in slot ptr.
  method ReadBlocks(indexes: array<nat>, s: string) returns (src: nat, ptr: nat, out: seq<Byte>, ghost read: string)
    requires indexes.Length == 4 && Stale(0, indexes[..])
    modifies indexes
    ensures src <= |s| && ptr == |read| < 4 && Buffered(read, indexes[..])
    ensures Prepend(out, Decoded(read + s[src..])) == Decoded(s)
    ensures src == |s| ==> indexes[ptr] != INVALID_IDX && indexes[ptr] != PADDING_IDX
    ensures src < |s| ==> IsStop(Lookup(s[src])) && indexes[ptr] == Lookup(s[src])
  {
    hide *;
    src, ptr, out, read := 0, 0, [], [];
    assert read + s[0..] == s;
    Begin(s, indexes[..]);
    while src < |s|
      invariant 0 <= ptr == |read| < 4 && src <= |s|
      invariant Buffered(read, indexes[..]) && Stale(ptr, indexes[..])
      invariant Prepend(out, Decoded(read + s[src..])) == Decoded(s)
    {
      BufferSymbol(read, s[src], indexes[..]);
      indexes[ptr] := Lookup(s[src]);
      if IsStop(indexes[ptr]) {
        return;
      }
      assert read + s[src..] == read + [s[src]] + s[src + 1..];
      read := read + [s[src]];
      src := src + 1;
      ptr := ptr + 1;
      if ptr == 4 {
        BufferFull(read, s[src..], indexes[..]);
        var block := DecodedBlock(indexes[0], indexes[1], indexes[2], indexes[3]);
        PrependTwice(out, block, Decoded(s[src..]));
        out := out + block;
        ptr := 0;
        read := [];
        assert read + s[src..] == s[src..];
      }
    }
    StaleMark(ptr, indexes[..]);
  }

  // Block and tail handling over a buffer of four indices; no access leaves
  // it, on any input.
  method Decode(s: string) returns (result: Result)
    ensures result == Decoded(s)
  {
    var indexes := new nat[4](_ => 0);
    indexes[0] := EOF_IDX;
    hide Decoded, DecodedTail, Lookup, SymbolRun, PaddingRun, Buffered, PaddedTo, Ends, TailBytes, IsStop;
    var src, ptr, out;
    ghost var read;
    src, ptr, out, read := ReadBlocks(indexes, s);
    ghost var t := read + s[src..];
    BlockIncomplete(read, s[src..], indexes[..]);
    TailWithoutPadding(t, ptr);
    if indexes[ptr] == INVALID_IDX {
      return Err(SymbolError(s[src]));
    }
    src := src + 1;
    var last := ptr;
    if indexes[ptr] == PADDING_IDX {
      if last == 0 {
        return Err(PaddingError);
      }
      var valid;
      valid, last := ReadPadding(indexes, s, src, ptr, t, read);
      if !valid {
        return Err(PaddingError);
      }
      if last != 4 { NoTail(t, ptr, last); } else { TailFromBuffer(t, ptr, read, indexes[..]); }
    }
    if last != 0 {
      if last != 4 {
        return Err(PaddingError);
      }
      return Prepend(out, TailBytes(indexes[..], ptr));
    }
    return Ok(out);
  }

  lemma PaddingStarts(t: string, ptr: nat)
    requires ptr < |t| && t[ptr] == '='
    ensures PaddedTo(t, ptr, ptr + 1)
  {
  }
}
