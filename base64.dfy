/**
 * The base64 transport codec of jsastc (namespace `base64` in jsastc/jsastc.cpp):
 * the standard alphabet and `=` padding of section 4 of RFC 4648, no line wrapping.
 *
 * `Encoding` and `Decoding` are the reference definitions, quantum by quantum;
 * `Encode` and `Decode` are the source's loops (a running 32-bit `temp`, an iterator,
 * in-place appends) proved equal to them. The lemmas state what the codec promises.
 */
module Base64 {
  import opened Common
  import opened Arithmetic

  /** `kEncodeLookup`: the 64 data symbols, indexed by sextet value. */
  const EncodeLookup: string :=
    "ABCDEFGH" + "IJKLMNOP" + "QRSTUVWX" + "YZabcdef" +
    "ghijklmn" + "opqrstuv" + "wxyz0123" + "456789+/"

  /** `kPadCharacter`. */
  const PadCharacter: char := '='

  /** One more than the largest value of `std::uint32_t`: `temp` wraps modulo this. */
  const Uint32Limit: nat := 0x1_0000_0000

  /**
   * The value the decoder ORs into `temp` for a character: the chain of range tests of
   * the decoder, in the source's order. `None` for every character that is not a data
   * symbol (the pad character included).
   */
  function SymbolValue(c: char): (r: Option<nat>)
    ensures r.Some? ==> r.value < 0x40
  {
    if 'A' <= c <= 'Z' then Some(c as int - 0x41)
    else if 'a' <= c <= 'z' then Some(c as int - 0x47)
    else if '0' <= c <= '9' then Some(c as int + 0x04)
    else if c == '+' then Some(0x3E)
    else if c == '/' then Some(0x3F)
    else None
  }

  /** Table entry `k`, by ranges. */
  function LookupChar(k: nat): char
    requires k < 0x40
  {
    if k < 26 then ('A' as int + k) as char
    else if k < 52 then ('a' as int + (k - 26)) as char
    else if k < 62 then ('0' as int + (k - 52)) as char
    else if k == 62 then '+' else '/'
  }

  lemma LookupCharAt(k: nat)
    requires k < 0x40
    ensures |EncodeLookup| == 0x40 && EncodeLookup[k] == LookupChar(k)
  {
  }

  lemma SymbolValueOfChar(k: nat)
    requires k < 0x40
    ensures SymbolValue(LookupChar(k)) == Some(k)
  {
  }

  /** The decoder maps each table entry back to its index. */
  lemma SymbolValueOfLookup(k: nat)
    requires k < 0x40
    ensures SymbolValue(EncodeLookup[k]) == Some(k)
  {
    LookupCharAt(k);
    SymbolValueOfChar(k);
  }

  /**
   * The range tests accept exactly the 64 table entries, and map each to its index:
   * `SymbolValue` is the inverse of the table.
   */
  lemma SymbolValueInverse(c: char)
    ensures SymbolValue(c).Some? <==> c in EncodeLookup
    ensures SymbolValue(c).Some? ==> EncodeLookup[SymbolValue(c).value] == c
  {
    if SymbolValue(c).Some? {
      LookupCharAt(SymbolValue(c).value);
    }
    if c in EncodeLookup {
      var k :| 0 <= k < |EncodeLookup| && EncodeLookup[k] == c;
      SymbolValueOfLookup(k);
    }
  }

  predicate AllSymbols(q: string) {
    forall j | 0 <= j < |q| :: SymbolValue(q[j]).Some?
  }

  /** 64 to the power `i`, for the at most four sextets of a quantum. */
  function Weight(i: nat): nat
    requires i <= 4
  {
    if i == 0 then 1 else if i == 1 then 0x40 else if i == 2 then 0x1000
    else if i == 3 then 0x40000 else 0x1000000
  }

  /** The number whose base-64 digits, most significant first, are the symbols of `q`. */
  function SextetsValue(q: string): (r: nat)
    requires |q| <= 4 && AllSymbols(q)
    ensures r < Weight(|q|)
  {
    if q == [] then 0
    else SextetsValue(q[..|q| - 1]) * 0x40 + SymbolValue(q[|q| - 1]).value
  }

  /** The 24-bit group of three bytes, most significant first. */
  function Group(b0: byte, b1: byte, b2: byte): nat {
    b0 as int * 0x10000 + b1 as int * 0x100 + b2
  }

  /** The four symbols of a 24-bit group, most significant sextet first. */
  function GroupSymbols(g: nat): string
    requires g < 0x1000000
  {
    [LookupChar(g / 0x40000 % 0x40), LookupChar(g / 0x1000 % 0x40),
     LookupChar(g / 0x40 % 0x40), LookupChar(g % 0x40)]
  }

  /** The first `n` bytes of a 24-bit group, most significant first. */
  function GroupBytes(g: nat, n: nat): seq<byte>
    requires g < 0x1000000 && n <= 3
  {
    [g / 0x10000, g / 0x100 % 0x100, g % 0x100][..n]
  }

  /**
   * Reference encoding: a full quantum per three bytes; a final group of two bytes
   * gives three symbols and one pad, a final single byte two symbols and two pads.
   */
  function Encoding(bytes: seq<byte>): string
    decreases |bytes|
  {
    if |bytes| >= 3 then GroupSymbols(Group(bytes[0], bytes[1], bytes[2])) + Encoding(bytes[3..])
    else if |bytes| == 2 then GroupSymbols(Group(bytes[0], bytes[1], 0))[..3] + [PadCharacter]
    else if |bytes| == 1 then GroupSymbols(Group(bytes[0], 0, 0))[..2] + [PadCharacter, PadCharacter]
    else []
  }

  /** Number of pad characters `Encoding` puts after `n` bytes. */
  function PadCount(n: nat): nat {
    (3 - n % 3) % 3
  }

  /** What the decoder does with one quantum of four characters. */
  datatype QuantumResult =
    | Full(bytes: seq<byte>)   // four data symbols: three bytes, decoding goes on
    | Final(bytes: seq<byte>)  // a pad where the decoder returns what it has
    | Illegal                  // the decoder returns an empty vector

  /**
   * One quantum, scanned left to right like the inner loop of the decoder. `last` says
   * whether it is the final quantum of the input: only there is the distance from a pad
   * to the end of the input 1 or 2. A pad in the third position ends decoding before
   * the fourth character is looked at.
   */
  function DecodeQuantum(q: string, last: bool): QuantumResult
    requires |q| == 4
  {
    if !AllSymbols(q[..2]) then Illegal
    else if SymbolValue(q[2]).None? then
      if q[2] == PadCharacter && last then Final(GroupBytes(SextetsValue(q[..2]) * 0x1000, 1))
      else Illegal
    else if SymbolValue(q[3]).None? then
      if q[3] == PadCharacter && last then Final(GroupBytes(SextetsValue(q[..3]) * 0x40, 2))
      else Illegal
    else Full(GroupBytes(SextetsValue(q), 3))
  }

  function Prepend(prefix: seq<byte>, r: Option<seq<byte>>): Option<seq<byte>> {
    match r
    case None => None
    case Some(rest) => Some(prefix + rest)
  }

  lemma PrependAssoc(a: seq<byte>, b: seq<byte>, r: Option<seq<byte>>)
    ensures Prepend(a, Prepend(b, r)) == Prepend(a + b, r)
  {
    if r.Some? {
      assert a + (b + r.value) == (a + b) + r.value;
    }
  }

  /** The quanta of `s` in order; `None` where the decoder gives up. */
  function DecodeQuanta(s: string): Option<seq<byte>>
    requires |s| % 4 == 0
    decreases |s|
  {
    if |s| == 0 then Some([])
    else match DecodeQuantum(s[..4], |s| == 4)
      case Illegal => None
      case Final(bytes) => Some(bytes)
      case Full(bytes) => Prepend(bytes, DecodeQuanta(s[4..]))
  }

  /**
   * Reference decoding. A failure is an empty result, indistinguishable from the
   * decoding of the empty string.
   */
  function Decoding(s: string): seq<byte> {
    if |s| % 4 != 0 then []
    else match DecodeQuanta(s)
      case None => []
      case Some(bytes) => bytes
  }

  // ---------------------------------------------------------------------------
  // The source's loops
  // ---------------------------------------------------------------------------

  /** `base64::encode`. */
  method Encode(input: seq<byte>) returns (encoded: string)
    ensures encoded == Encoding(input)
  {
    encoded := [];
    var temp: nat := 0;
    var it := 0;
    assert |input| / 3 * 3 <= |input|;
    for i := 0 to |input| / 3
      invariant it == 3 * i
      invariant encoded == Encoding(input[..it])
    {
      EncodingStep(input, i);
      LookupGroup(Group(input[it], input[it + 1], input[it + 2]));
      ghost var before := encoded;
      temp := input[it] as int * 0x10000;
      temp := temp + input[it + 1] as int * 0x100;
      temp := temp + input[it + 2];
      it := it + 3;
      encoded := encoded + [EncodeLookup[temp / 0x40000 % 0x40]];
      encoded := encoded + [EncodeLookup[temp / 0x1000 % 0x40]];
      encoded := encoded + [EncodeLookup[temp / 0x40 % 0x40]];
      encoded := encoded + [EncodeLookup[temp % 0x40]];
      assert encoded == before + LookupSymbols(temp);
    }
    EncodingTail(input, it);
    encoded := EncodeTail(input, it, encoded);
  }

  /** The `switch` after the encoder's loop: the final one or two bytes, and the pads. */
  method EncodeTail(input: seq<byte>, it: nat, encoded: string) returns (encoded': string)
    requires it + 3 > |input| >= it
    ensures encoded' == encoded + Encoding(input[it..])
  {
    encoded' := encoded;
    var temp: nat;
    match |input| - it
    case 1 =>
      EncodingOne(input[it]);
      assert input[it..] == [input[it]];
      temp := input[it] as int * 0x10000;
      encoded' := encoded' + [EncodeLookup[temp / 0x40000 % 0x40]];
      encoded' := encoded' + [EncodeLookup[temp / 0x1000 % 0x40]];
      encoded' := encoded' + [PadCharacter, PadCharacter];
    case 2 =>
      EncodingTwo(input[it], input[it + 1]);
      assert input[it..] == [input[it], input[it + 1]];
      temp := input[it] as int * 0x10000;
      temp := temp + input[it + 1] as int * 0x100;
      encoded' := encoded' + [EncodeLookup[temp / 0x40000 % 0x40]];
      encoded' := encoded' + [EncodeLookup[temp / 0x1000 % 0x40]];
      encoded' := encoded' + [EncodeLookup[temp / 0x40 % 0x40]];
      encoded' := encoded' + [PadCharacter];
    case _ =>
      assert input[it..] == [];
  }

  lemma EncodingOne(b0: byte)
    ensures Encoding([b0]) ==
      [EncodeLookup[Group(b0, 0, 0) / 0x40000 % 0x40], EncodeLookup[Group(b0, 0, 0) / 0x1000 % 0x40],
       PadCharacter, PadCharacter]
  {
    LookupGroup(Group(b0, 0, 0));
  }

  lemma EncodingTwo(b0: byte, b1: byte)
    ensures Encoding([b0, b1]) ==
      [EncodeLookup[Group(b0, b1, 0) / 0x40000 % 0x40], EncodeLookup[Group(b0, b1, 0) / 0x1000 % 0x40],
       EncodeLookup[Group(b0, b1, 0) / 0x40 % 0x40], PadCharacter]
  {
    LookupGroup(Group(b0, b1, 0));
  }

  /** The table lookups of the encoder give the symbols of the reference encoding. */
  function LookupSymbols(g: nat): string
    requires g < 0x1000000
  {
    [EncodeLookup[g / 0x40000 % 0x40], EncodeLookup[g / 0x1000 % 0x40],
     EncodeLookup[g / 0x40 % 0x40], EncodeLookup[g % 0x40]]
  }

  lemma LookupGroup(g: nat)
    requires g < 0x1000000
    ensures GroupSymbols(g) == LookupSymbols(g)
  {
    LookupCharAt(g / 0x40000 % 0x40);
    LookupCharAt(g / 0x1000 % 0x40);
    LookupCharAt(g / 0x40 % 0x40);
    LookupCharAt(g % 0x40);
  }

  // The encoder's loop invariant, one group at a time and at the tail.

  lemma EncodingStep(input: seq<byte>, i: nat)
    requires 3 * i + 3 <= |input|
    ensures var it := 3 * i;
      Encoding(input[..it + 3]) ==
      Encoding(input[..it]) + GroupSymbols(Group(input[it], input[it + 1], input[it + 2]))
  {
    var it := 3 * i;
    var group := input[it..it + 3];
    EncodingAppend(input[..it], group);
    assert input[..it + 3] == input[..it] + group;
    assert group[3..] == [];
  }

  lemma WholeGroups(n: nat)
    ensures n / 3 * 3 <= n < n / 3 * 3 + 3
  {
    assert n == n / 3 * 3 + n % 3;
  }

  lemma EncodingTail(input: seq<byte>, it: nat)
    requires it == |input| / 3 * 3
    ensures it + 3 > |input| >= it
    ensures Encoding(input) == Encoding(input[..it]) + Encoding(input[it..])
  {
    WholeGroups(|input|);
    DivMod(it, 3, |input| / 3, 0);
    EncodingAppend(input[..it], input[it..]);
    assert input == input[..it] + input[it..];
  }

  /**
   * `base64::decode`: the outer `while` loop, one quantum per turn. The quantum's own
   * four steps, and the early returns they take, are `DecodeStep`.
   */
  method Decode(input: string) returns (decoded: seq<byte>)
    ensures decoded == Decoding(input)
  {
    if |input| % 4 != 0 {
      return [];
    }
    decoded := [];
    var temp: nat := 0;
    var it := 0;
    DecodedSoFarStart(input);
    ghost var done := 0;
    while it < |input|
      invariant 0 <= it <= |input| && it == 4 * done
      invariant temp < Uint32Limit
      invariant DecodeQuanta(input) == Prepend(decoded, DecodeQuanta(input[it..]))
    {
      DecodeQuantaAt(input, it);
      var step;
      temp, step := DecodeStep(input, it, temp);
      match step
      case Final(bytes) =>
        DecodedFinal(input, decoded, it, bytes);
        decoded := decoded + bytes;
        return;
      case Illegal =>
        DecodedIllegal(input, decoded, it);
        return [];
      case Full(bytes) =>
        DivMod(|input[it + 4..]|, 4, |input| / 4 - done - 1, 0);
        PrependAssoc(decoded, bytes, DecodeQuanta(input[it + 4..]));
        decoded := decoded + bytes;
        it := it + 4;
        done := done + 1;
    }
    DecodedAll(input, decoded);
  }

  /**
   * The inner `for` loop of `base64::decode` over the quantum at `it`: shift each
   * character's value into the 32-bit `temp` (`temp |= v` is written `+ v`, since the
   * shift leaves the low six bits zero); at a pad, switch on `input.end() - it`; after
   * four symbols, mask out three bytes.
   */
  method DecodeStep(input: string, it: nat, temp: nat) returns (temp': nat, step: QuantumResult)
    requires |input| % 4 == 0 && it % 4 == 0 && it < |input| && temp < Uint32Limit
    ensures it + 4 <= |input| && temp' < Uint32Limit
    ensures step == DecodeQuantum(input[it..it + 4], it + 4 == |input|)
  {
    ghost var q := input[it..it + 4];
    ghost var last := it + 4 == |input|;
    temp' := temp;
    for i := 0 to 4
      invariant temp' < Uint32Limit
      invariant AllSymbols(q[..i])
      invariant temp' % Weight(i) == SextetsValue(q[..i])
    {
      var c := input[it + i];
      assert c == q[i];
      var v := SymbolValue(c);
      ShiftIn(temp', if v.Some? then v.value else 0, i);
      temp' := temp' * 0x40 % Uint32Limit;
      if v.Some? {
        temp' := temp' + v.value;
        assert q[..i + 1][..i] == q[..i];
      } else if c == PadCharacter {
        match |input| - (it + i)
        case 1 =>
          QuantumPadFourth(q, temp');
          return temp', Final([temp' / 0x10000 % 0x100, temp' / 0x100 % 0x100]);
        case 2 =>
          QuantumPadThird(q, temp');
          return temp', Final([temp' / 0x400 % 0x100]);
        case _ =>
          QuantumIllegal(q, last, i);
          return temp', Illegal;
      } else {
        QuantumIllegal(q, last, i);
        return temp', Illegal;
      }
    }
    assert q[..4] == q;
    QuantumFull(q, last, temp');
    step := Full([temp' / 0x10000 % 0x100, temp' / 0x100 % 0x100, temp' % 0x100]);
  }

  // The decoder's loop invariant at its entry, its early returns and its exit.

  lemma DecodedSoFarStart(input: string)
    requires |input| % 4 == 0
    ensures DecodeQuanta(input) == Prepend([], DecodeQuanta(input[0..]))
  {
    assert input[0..] == input;
    if DecodeQuanta(input).Some? {
      assert [] + DecodeQuanta(input).value == DecodeQuanta(input).value;
    }
  }

  lemma DecodeQuantaAt(s: string, start: nat)
    requires |s| % 4 == 0 && start % 4 == 0 && start < |s|
    ensures start + 4 <= |s|
    ensures DecodeQuanta(s[start..]) == match DecodeQuantum(s[start..start + 4], start + 4 == |s|)
      case Illegal => None
      case Final(bytes) => Some(bytes)
      case Full(bytes) => Prepend(bytes, DecodeQuanta(s[start + 4..]))
  {
    assert s[start..][..4] == s[start..start + 4] && s[start..][4..] == s[start + 4..];
  }

  lemma DecodedFinal(input: string, decoded: seq<byte>, start: nat, bytes: seq<byte>)
    requires |input| % 4 == 0 && start % 4 == 0 && start <= |input|
    requires DecodeQuanta(input) == Prepend(decoded, DecodeQuanta(input[start..]))
    requires DecodeQuanta(input[start..]) == Some(bytes)
    ensures Decoding(input) == decoded + bytes
  {
  }

  lemma DecodedIllegal(input: string, decoded: seq<byte>, start: nat)
    requires |input| % 4 == 0 && start % 4 == 0 && start <= |input|
    requires DecodeQuanta(input) == Prepend(decoded, DecodeQuanta(input[start..]))
    requires DecodeQuanta(input[start..]) == None
    ensures Decoding(input) == []
  {
  }

  lemma DecodedAll(input: string, decoded: seq<byte>)
    requires |input| % 4 == 0
    requires DecodeQuanta(input) == Prepend(decoded, DecodeQuanta(input[|input|..]))
    ensures Decoding(input) == decoded
  {
    assert input[|input|..] == [];
    assert decoded + [] == decoded;
  }

  // ---------------------------------------------------------------------------
  // Arithmetic of the running accumulator
  // ---------------------------------------------------------------------------

  /** Shifting a sextet into the 32-bit `temp` extends its low `6 * i` bits by six. */
  lemma ShiftIn(t: nat, v: nat, i: nat)
    requires t < Uint32Limit && v < 0x40 && i < 4
    ensures t * 0x40 % Uint32Limit + v < Uint32Limit
    ensures (t * 0x40 % Uint32Limit + v) % Weight(i + 1) == t % Weight(i) * 0x40 + v
  {
    var hi, lo := t / 0x400_0000, t % 0x400_0000;
    DivMod(t * 0x40, Uint32Limit, hi, lo * 0x40);
    var w := Weight(i);
    var k := 0x400_0000 / w;
    assert k * w == 0x400_0000;
    var a, b := lo / w, lo % w;
    assert hi * 0x400_0000 == hi * k * w;
    DivMod(t, w, hi * k + a, b);
    assert Weight(i + 1) == w * 0x40;
    DivMod(lo * 0x40 + v, w * 0x40, a, b * 0x40 + v);
  }

  /** The bytes the decoder masks out of `temp` depend on its low 24 bits only. */
  lemma LowBytes(t: nat)
    ensures t / 0x10000 % 0x100 == t % 0x1000000 / 0x10000
    ensures t / 0x100 % 0x100 == t % 0x1000000 / 0x100 % 0x100
    ensures t % 0x100 == t % 0x1000000 % 0x100
    ensures t / 0x400 % 0x100 == t % 0x40000 / 0x400
  {
    var h, lo := t / 0x1000000, t % 0x1000000;
    DivMod(t, 0x10000, h * 0x100 + lo / 0x10000, lo % 0x10000);
    DivMod(t / 0x10000, 0x100, h, lo / 0x10000);
    DivMod(t, 0x100, h * 0x10000 + lo / 0x100, lo % 0x100);
    DivMod(t / 0x100, 0x100, h * 0x100 + lo / 0x10000, lo / 0x100 % 0x100);
    DivMod(t, 0x100, h * 0x10000 + lo / 0x100, lo % 0x100);
    var h', lo' := t / 0x40000, t % 0x40000;
    DivMod(t, 0x400, h' * 0x100 + lo' / 0x400, lo' % 0x400);
    DivMod(t / 0x400, 0x100, h', lo' / 0x400);
  }

  // ---------------------------------------------------------------------------
  // One quantum, as the decoder's inner loop sees it
  // ---------------------------------------------------------------------------

  /** Four data symbols: the three bytes the decoder masks out of `temp`. */
  lemma QuantumFull(q: string, last: bool, t: nat)
    requires |q| == 4 && AllSymbols(q) && t % Weight(4) == SextetsValue(q)
    ensures DecodeQuantum(q, last) == Full([t / 0x10000 % 0x100, t / 0x100 % 0x100, t % 0x100])
  {
    assert q[..2][0] == q[0] && q[..2][1] == q[1];
    LowBytes(t);
  }

  /** A pad as the last character of the input, after three symbols: two bytes. */
  lemma QuantumPadFourth(q: string, t: nat)
    requires |q| == 4 && AllSymbols(q[..3]) && q[3] == PadCharacter
    requires t % Weight(4) == SextetsValue(q[..3]) * 0x40
    ensures DecodeQuantum(q, true) == Final([t / 0x10000 % 0x100, t / 0x100 % 0x100])
  {
    assert q[..2] == q[..3][..2];
    assert q[2] == q[..3][2];
    LowBytes(t);
  }

  /**
   * A pad as the second-to-last character of the input, after two symbols: one byte,
   * whatever the last character is.
   */
  lemma QuantumPadThird(q: string, t: nat)
    requires |q| == 4 && AllSymbols(q[..2]) && q[2] == PadCharacter
    requires t % Weight(3) == SextetsValue(q[..2]) * 0x40
    ensures DecodeQuantum(q, true) == Final([t / 0x400 % 0x100])
  {
    LowBytes(t);
    var s := SextetsValue(q[..2]);
    DivMod(s * 0x40, 0x400, s / 0x10, s % 0x10 * 0x40);
    DivMod(s * 0x1000, 0x10000, s / 0x10, s % 0x10 * 0x1000);
  }

  /**
   * The first non-symbol of a quantum ends decoding with an empty result unless it is
   * a pad at distance 1 or 2 from the end of the input.
   */
  lemma QuantumIllegal(q: string, last: bool, i: nat)
    requires |q| == 4 && i < 4 && AllSymbols(q[..i]) && SymbolValue(q[i]).None?
    requires !(q[i] == PadCharacter && last && i >= 2)
    ensures DecodeQuantum(q, last) == Illegal
  {
    if i >= 2 {
      assert q[..i][0] == q[0] && q[..i][1] == q[1];
      assert i == 3 ==> q[..i][2] == q[2];
    }
  }

  // ---------------------------------------------------------------------------
  // Properties of the reference definitions
  // ---------------------------------------------------------------------------

  /** Encoding works group by group: a prefix of whole groups encodes on its own. */
  lemma {:induction false} EncodingAppend(a: seq<byte>, b: seq<byte>)
    requires |a| % 3 == 0
    ensures Encoding(a + b) == Encoding(a) + Encoding(b)
  {
    if a == [] {
      assert a + b == b;
    } else {
      assert (a + b)[3..] == a[3..] + b;
      EncodingAppend(a[3..], b);
    }
  }

  /** The encoding has 4 * ceil(n / 3) characters. */
  lemma {:induction false} EncodingLength(bytes: seq<byte>)
    ensures |Encoding(bytes)| == 4 * ((|bytes| + 2) / 3)
  {
    var n := |bytes|;
    if n >= 3 {
      EncodingLength(bytes[3..]);
      EncodingCons(bytes);
      DivMod(n + 2, 3, (n - 1) / 3 + 1, (n - 1) % 3);
    } else {
      DivMod(n + 2, 3, if n == 0 then 0 else 1, if n == 0 then 2 else n - 1);
    }
  }

  /** Every symbol of a group is a data symbol. */
  lemma GroupSymbolsInAlphabet(g: nat)
    requires g < 0x1000000
    ensures AllSymbols(GroupSymbols(g))
  {
    SymbolValueOfChar(g / 0x40000 % 0x40);
    SymbolValueOfChar(g / 0x1000 % 0x40);
    SymbolValueOfChar(g / 0x40 % 0x40);
    SymbolValueOfChar(g % 0x40);
  }

  /**
   * `e` is data symbols followed by `pads` pad characters. (`AllSymbols` holds exactly
   * of strings over the table `EncodeLookup`, by `SymbolValueInverse`.)
   */
  predicate Padded(e: string, pads: nat) {
    pads <= |e| && AllSymbols(e[..|e| - pads]) &&
    forall k | |e| - pads <= k < |e| :: e[k] == PadCharacter
  }

  /** A whole group more does not change the number of pads. */
  lemma PadCountStep(n: nat)
    requires n >= 3
    ensures PadCount(n) == PadCount(n - 3)
  {
    DivMod(n, 3, (n - 3) / 3 + 1, (n - 3) % 3);
  }

  /**
   * The encoding is data symbols followed by as many pads as the final group is short
   * of three bytes (at most two).
   */
  lemma {:induction false} EncodingShape(bytes: seq<byte>)
    ensures PadCount(|bytes|) <= 2
    ensures Padded(Encoding(bytes), PadCount(|bytes|))
  {
    if |bytes| >= 3 {
      EncodingShape(bytes[3..]);
      PadCountStep(|bytes|);
      EncodingShapeStep(bytes, PadCount(|bytes| - 3));
    } else {
      EncodingShapeShort(bytes);
    }
  }

  /** The first group of three bytes and the rest. */
  lemma EncodingCons(bytes: seq<byte>)
    requires |bytes| >= 3
    ensures Encoding(bytes) == GroupSymbols(Group(bytes[0], bytes[1], bytes[2])) + Encoding(bytes[3..])
  {
  }

  /** One more whole group in front keeps the encoding padded. */
  lemma EncodingShapeStep(bytes: seq<byte>, pads: nat)
    requires |bytes| >= 3 && Padded(Encoding(bytes[3..]), pads)
    ensures Padded(Encoding(bytes), pads)
  {
    var g := Group(bytes[0], bytes[1], bytes[2]);
    GroupSymbolsInAlphabet(g);
    EncodingCons(bytes);
    PaddedPrepend(GroupSymbols(g), Encoding(bytes[3..]), pads, Encoding(bytes));
  }

  /** The encoding of fewer than three bytes. */
  lemma EncodingShapeShort(bytes: seq<byte>)
    requires |bytes| < 3
    ensures PadCount(|bytes|) <= 2
    ensures Padded(Encoding(bytes), PadCount(|bytes|))
  {
    var e := Encoding(bytes);
    if |bytes| == 2 {
      GroupSymbolsInAlphabet(Group(bytes[0], bytes[1], 0));
      PaddedTail(GroupSymbols(Group(bytes[0], bytes[1], 0)), 1, e);
    } else if |bytes| == 1 {
      GroupSymbolsInAlphabet(Group(bytes[0], 0, 0));
      PaddedTail(GroupSymbols(Group(bytes[0], 0, 0)), 2, e);
    } else {
      assert e[..0] == [];
    }
  }

  /** Symbols in front of a padded string leave it padded. */
  lemma PaddedPrepend(q: string, rest: string, pads: nat, e: string)
    requires AllSymbols(q) && Padded(rest, pads) && e == q + rest
    ensures Padded(e, pads)
  {
    assert e[..|e| - pads] == q + rest[..|rest| - pads];
    forall k | |e| - pads <= k < |e|
      ensures e[k] == PadCharacter
    {
      assert e[k] == rest[k - |q|];
    }
  }

  /** The final quantum of a short group: symbols of the group, then `pads` pads. */
  lemma PaddedTail(q: string, pads: nat, e: string)
    requires |q| == 4 && 1 <= pads <= 2 && AllSymbols(q)
    requires e == q[..4 - pads] + if pads == 1 then [PadCharacter] else [PadCharacter, PadCharacter]
    ensures Padded(e, pads)
  {
    assert e[..|e| - pads] == q[..4 - pads];
  }

  /** The four sextets the encoder masks out of a 24-bit group, and their prefixes. */
  lemma SextetDigits(g: nat)
    requires g < 0x1000000
    ensures g / 0x1000 == g / 0x40000 % 0x40 * 0x40 + g / 0x1000 % 0x40
    ensures g / 0x40 == g / 0x1000 * 0x40 + g / 0x40 % 0x40
    ensures g == g / 0x40 * 0x40 + g % 0x40
  {
    var a, r1 := g / 0x40000, g % 0x40000;
    var b, r2 := r1 / 0x1000, r1 % 0x1000;
    var c, d := r2 / 0x40, r2 % 0x40;
    DivMod(g, 0x1000, a * 0x40 + b, c * 0x40 + d);
    DivMod(g / 0x1000, 0x40, a, b);
    DivMod(g, 0x40, a * 0x1000 + b * 0x40 + c, d);
    DivMod(g / 0x40, 0x40, a * 0x40 + b, c);
    DivMod(a, 0x40, 0, a);
  }

  /** The value of a string of symbols, one symbol at a time from the left. */
  lemma SextetsValueSnoc(q: string, i: nat)
    requires i < |q| <= 4 && AllSymbols(q)
    ensures AllSymbols(q[..i + 1])
    ensures SextetsValue(q[..i + 1]) == SextetsValue(q[..i]) * 0x40 + SymbolValue(q[i]).value
  {
    assert q[..i + 1][..i] == q[..i];
  }

  /** The four symbols of a group decode back to the group. */
  lemma GroupSymbolsValue(g: nat)
    requires g < 0x1000000
    ensures AllSymbols(GroupSymbols(g))
    ensures SextetsValue(GroupSymbols(g)) == g
    ensures SextetsValue(GroupSymbols(g)[..3]) == g / 0x40
    ensures SextetsValue(GroupSymbols(g)[..2]) == g / 0x1000
  {
    var q := GroupSymbols(g);
    SymbolValueOfChar(g / 0x40000 % 0x40);
    SymbolValueOfChar(g / 0x1000 % 0x40);
    SymbolValueOfChar(g / 0x40 % 0x40);
    SymbolValueOfChar(g % 0x40);
    assert AllSymbols(q);
    SextetDigits(g);
    assert q[..0] == [];
    SextetsValueSnoc(q, 0);
    SextetsValueSnoc(q, 1);
    SextetsValueSnoc(q, 2);
    SextetsValueSnoc(q, 3);
    assert q[..4] == q;
  }

  /** A group's bytes, read back from the group. */
  lemma GroupBytesOfGroup(b0: byte, b1: byte, b2: byte)
    ensures GroupBytes(Group(b0, b1, b2), 3) == [b0, b1, b2]
    ensures Group(b0, b1, 0) / 0x40 * 0x40 == Group(b0, b1, 0)
    ensures Group(b0, 0, 0) / 0x1000 * 0x1000 == Group(b0, 0, 0)
  {
    var g := Group(b0, b1, b2);
    DivMod(g, 0x10000, b0, b1 * 0x100 + b2);
    DivMod(g, 0x100, b0 * 0x100 + b1, b2);
    DivMod(g / 0x100, 0x100, b0, b1);
    DivMod(Group(b0, b1, 0), 0x40, b0 * 0x400 + b1 * 4, 0);
    DivMod(Group(b0, 0, 0), 0x1000, b0 * 0x10, 0);
  }

  /** A full group of symbols decodes to the three bytes it came from. */
  lemma QuantumOfThree(b0: byte, b1: byte, b2: byte, last: bool)
    ensures DecodeQuantum(GroupSymbols(Group(b0, b1, b2)), last) == Full([b0, b1, b2])
  {
    var g := Group(b0, b1, b2);
    var q := GroupSymbols(g);
    GroupSymbolsValue(g);
    GroupBytesOfGroup(b0, b1, b2);
    assert AllSymbols(q[..2]);
  }

  /** Three symbols and a pad decode to the two bytes they came from. */
  lemma QuantumOfTwo(b0: byte, b1: byte)
    ensures DecodeQuantum(GroupSymbols(Group(b0, b1, 0))[..3] + [PadCharacter], true) == Final([b0, b1])
  {
    var g := Group(b0, b1, 0);
    var q := GroupSymbols(g)[..3] + [PadCharacter];
    GroupSymbolsValue(g);
    GroupBytesOfGroup(b0, b1, 0);
    assert q[..3] == GroupSymbols(g)[..3];
    assert q[..2] == GroupSymbols(g)[..2];
    assert q[3] == PadCharacter;
    assert GroupBytes(g, 2) == [b0, b1];
  }

  /** Two symbols and two pads decode to the byte they came from. */
  lemma QuantumOfOne(b0: byte)
    ensures DecodeQuantum(GroupSymbols(Group(b0, 0, 0))[..2] + [PadCharacter, PadCharacter], true) == Final([b0])
  {
    var g := Group(b0, 0, 0);
    var q := GroupSymbols(g)[..2] + [PadCharacter, PadCharacter];
    GroupSymbolsValue(g);
    GroupBytesOfGroup(b0, 0, 0);
    assert q[..2] == GroupSymbols(g)[..2];
    assert q[2] == PadCharacter;
    assert GroupBytes(g, 1) == [b0];
  }

  /** A full quantum in front of whole quanta: its bytes come first. */
  lemma DecodeQuantaFull(q: string, rest: string, bytes: seq<byte>)
    requires |q| == 4 && |rest| % 4 == 0
    requires DecodeQuantum(q, rest == []) == Full(bytes)
    ensures DecodeQuanta(q + rest) == Prepend(bytes, DecodeQuanta(rest))
  {
    assert (q + rest)[..4] == q && (q + rest)[4..] == rest;
  }

  /** A final quantum on its own: its bytes are the whole decoding. */
  lemma DecodeQuantaFinal(q: string, bytes: seq<byte>)
    requires |q| == 4 && DecodeQuantum(q, true) == Final(bytes)
    ensures DecodeQuanta(q) == Some(bytes)
  {
    assert q[..4] == q;
  }

  /** Every quantum the encoder writes decodes to the bytes it came from. */
  lemma {:induction false} DecodeEncodedQuanta(bytes: seq<byte>)
    ensures |Encoding(bytes)| % 4 == 0
    ensures DecodeQuanta(Encoding(bytes)) == Some(bytes)
  {
    EncodingLength(bytes);
    DivMod(|Encoding(bytes)|, 4, (|bytes| + 2) / 3, 0);
    if |bytes| >= 3 {
      var rest := Encoding(bytes[3..]);
      DecodeEncodedQuanta(bytes[3..]);
      EncodingLength(bytes[3..]);
      assert rest == [] <==> bytes[3..] == [];
      QuantumOfThree(bytes[0], bytes[1], bytes[2], rest == []);
      assert bytes[..3] == [bytes[0], bytes[1], bytes[2]];
      DecodeQuantaFull(GroupSymbols(Group(bytes[0], bytes[1], bytes[2])), rest, bytes[..3]);
      assert bytes == bytes[..3] + bytes[3..];
    } else if |bytes| == 2 {
      QuantumOfTwo(bytes[0], bytes[1]);
      DecodeQuantaFinal(Encoding(bytes), bytes[..2]);
      assert bytes == bytes[..2];
    } else if |bytes| == 1 {
      QuantumOfOne(bytes[0]);
      DecodeQuantaFinal(Encoding(bytes), bytes[..1]);
      assert bytes == bytes[..1];
    }
  }

  /** The round trip: decoding undoes encoding, for every byte sequence. */
  lemma RoundTrip(bytes: seq<byte>)
    ensures Decoding(Encoding(bytes)) == bytes
  {
    DecodeEncodedQuanta(bytes);
  }

  // ---------------------------------------------------------------------------
  // What the decoder rejects, and how many bytes it returns
  // ---------------------------------------------------------------------------

  /**
   * The positions where a character that is not a data symbol does not make the decoder
   * give up: a pad among the last two characters, and anything at all in the last
   * position once the pad before it has ended decoding.
   */
  predicate Tolerated(s: string, k: nat)
    requires k < |s|
  {
    (s[k] == PadCharacter && k + 2 >= |s|) || (k + 1 == |s| && k >= 1 && s[k - 1] == PadCharacter)
  }

  /** A character that is not tolerated where it stands makes some quantum illegal. */
  lemma {:induction false} QuantaRejected(s: string, k: nat)
    requires |s| % 4 == 0 && k < |s|
    requires SymbolValue(s[k]).None? && !Tolerated(s, k)
    ensures DecodeQuanta(s) == None
    decreases |s|
  {
    var q := s[..4];
    assert q[0] == s[0] && q[1] == s[1] && q[2] == s[2] && q[3] == s[3];
    if k < 4 {
      assert q[k] == s[k];
      if k < 2 {
        assert !AllSymbols(q[..2]) by { assert q[..2][k] == q[k]; }
      }
    } else {
      assert s[4..][k - 4] == s[k];
      QuantaRejected(s[4..], k - 4);
    }
  }

  /**
   * The decoder returns an empty result when some character is neither a data symbol
   * nor a pad, unless it is the last character and a pad precedes it; whatever earlier
   * quanta decoded to is discarded.
   */
  lemma RejectsIllegalCharacter(s: string, k: nat)
    requires k < |s| && SymbolValue(s[k]).None? && s[k] != PadCharacter
    requires !(k + 1 == |s| && k >= 1 && s[k - 1] == PadCharacter)
    ensures Decoding(s) == []
  {
    if |s| % 4 == 0 {
      QuantaRejected(s, k);
    }
  }

  /** The decoder returns an empty result when a pad stands before the last two positions. */
  lemma RejectsMisplacedPad(s: string, k: nat)
    requires k + 2 < |s| && s[k] == PadCharacter
    ensures Decoding(s) == []
  {
    if |s| % 4 == 0 {
      QuantaRejected(s, k);
    }
  }

  /** Bytes lost to padding in the last quantum, as the decoder's early returns give them. */
  function Shortfall(s: string): nat
    requires |s| >= 2
  {
    if s[|s| - 2] == PadCharacter then 2 else if s[|s| - 1] == PadCharacter then 1 else 0
  }

  /**
   * Three bytes per quantum, less two when a pad is second-to-last (the last character
   * is then not read) and less one when only the last character is a pad.
   */
  lemma {:induction false} DecodedLength(s: string)
    requires |s| % 4 == 0 && DecodeQuanta(s).Some?
    ensures |s| == 0 ==> DecodeQuanta(s).value == []
    ensures |s| > 0 ==> |DecodeQuanta(s).value| == 3 * (|s| / 4) - Shortfall(s)
    decreases |s|
  {
    if |s| > 0 {
      var q := s[..4];
      assert q[2] == s[2] && q[3] == s[3];
      match DecodeQuantum(q, |s| == 4)
      case Final(bytes) =>
        assert |s| == 4;
      case Full(bytes) =>
        var rest := s[4..];
        DecodedLength(rest);
        if |rest| > 0 {
          assert rest[|rest| - 2] == s[|s| - 2] && rest[|rest| - 1] == s[|s| - 1];
          DivMod(|s|, 4, |rest| / 4 + 1, 0);
        } else {
          assert SymbolValue(s[2]).Some? && SymbolValue(s[3]).Some?;
        }
    }
  }

  /** Once the second-to-last character is a pad, the last one does not matter. */
  lemma {:induction false} LastCharacterIgnored(s: string, c: char)
    requires |s| % 4 == 0 && |s| >= 4 && s[|s| - 2] == PadCharacter
    ensures Decoding(s[|s| - 1 := c]) == Decoding(s)
    decreases |s|
  {
    var t := s[|s| - 1 := c];
    assert t[..|s| - 1] == s[..|s| - 1];
    QuantaLastIgnored(s, t);
  }

  lemma {:induction false} QuantaLastIgnored(s: string, t: string)
    requires |s| % 4 == 0 && |s| >= 4 && |t| == |s| && s[|s| - 2] == PadCharacter
    requires t[..|s| - 1] == s[..|s| - 1]
    ensures DecodeQuanta(t) == DecodeQuanta(s)
    decreases |s|
  {
    assert forall i | 0 <= i < |s| - 1 :: t[i] == s[..|s| - 1][i];
    var p, q := t[..4], s[..4];
    assert p[..2] == q[..2] && p[2] == q[2];
    if |s| == 4 {
      assert q[..3] == p[..3];
    } else {
      assert p == q;
      assert t[4..][..|s| - 5] == s[4..][..|s| - 5];
      QuantaLastIgnored(s[4..], t[4..]);
    }
  }
}
