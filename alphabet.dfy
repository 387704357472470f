/** Alphabets: the set of ASCII symbols a Nano ID may be made of, held as the
    ordered symbol list and a 128-entry membership table derived from it. */
module Alphabet {
  import opened Bytes
  import opened Outcomes

  /** A `[bool; 128]` membership table, indexed by ASCII byte. */
  type Table = t: seq<bool> | |t| == 128 witness seq(128, _ => false)

  /** `AlphabetInner`: the configured symbols and the table derived from them.
      Nothing changes it after construction, so it is a value. */
  datatype AlphabetInner = AlphabetInner(symbols: seq<Byte>, symbolsMap: Table)
  {
    /** What construction guarantees: every symbol is ASCII and the table
        marks exactly the bytes that occur among the symbols. */
    predicate Valid() {
      AllAscii(symbols) &&
      forall c :: 0 <= c < 128 ==> symbolsMap[c] == (c in symbols)
    }

    /** The number of configured symbols, duplicates included: for a valid
        alphabet, never fewer than the bytes its table marks. */
    function Len(): (n: nat)
      ensures Valid() ==> |Marked()| <= n
    {
      MarkedBound();
      |symbols|
    }

    /** The bytes the table marks as members. */
    ghost function Marked(): set<Byte> {
      set c: Byte | c < 128 && symbolsMap[c]
    }

    /** In a valid alphabet the marked bytes are the distinct symbols, so there
        are at most as many of them as symbols. */
    lemma MarkedBound()
      ensures Valid() ==> |Marked()| <= |symbols|
    {
      if Valid() {
        assert Marked() == Elements(symbols);
        ElementsBound(symbols);
      }
    }

    /** The symbol at `index`; the index must be in range. */
    function Get(index: nat): (s: Byte)
      requires index < Len()
      ensures Valid() ==> IsAscii(s) && Contains(s)
    {
      symbols[index]
    }

    /** Table lookup; the table has 128 entries, so `c` must be ASCII. */
    function Contains(c: Byte): (r: bool)
      requires IsAscii(c)
      ensures Valid() ==> (r <==> c in symbols)
    {
      symbolsMap[c]
    }
  }

  /** The distinct bytes of `s`. */
  ghost function Elements(s: seq<Byte>): set<Byte> {
    set c: Byte | c in s
  }

  lemma {:induction false} ElementsBound(s: seq<Byte>)
    ensures |Elements(s)| <= |s|
  {
    if s != [] {
      ElementsBound(s[1..]);
      assert Elements(s) == {s[0]} + Elements(s[1..]);
    }
  }

  /** The alphabet `AlphabetInner::new` builds from ASCII `symbols`, as a value:
      the nine standard alphabets are constants evaluated this way. */
  function FromSymbols(symbols: seq<Byte>): (a: AlphabetInner)
    requires AllAscii(symbols)
    ensures a.symbols == symbols && a.Valid()
    ensures forall c :: 0 <= c < 128 ==> (a.Contains(c) <==> c in symbols)
  {
    AlphabetInner(symbols, seq(128, c requires 0 <= c < 128 => c in symbols))
  }

  /** `assert_validity`: scans the symbols; `false` stands for the panic
      raised at the first non-ASCII symbol. */
  method AssertValidity(alphabet: seq<Byte>) returns (ok: bool)
    ensures ok <==> AllAscii(alphabet)
  {
    var i := 0;
    while i < |alphabet|
      invariant 0 <= i <= |alphabet|
      invariant forall j :: 0 <= j < i ==> IsAscii(alphabet[j])
    {
      if !IsAscii(alphabet[i]) {
        return false;
      }
      i := i + 1;
    }
    return true;
  }

  /** `AlphabetInner::new`: checks the symbols, then marks each of them in a
      fresh all-false table. `None` stands for the panic of `assert_validity`. */
  method New(symbols: seq<Byte>) returns (r: Option<AlphabetInner>)
    ensures r.None? <==> exists i :: 0 <= i < |symbols| && !IsAscii(symbols[i])
    ensures r.Some? ==> r.value.symbols == symbols && r.value.Len() == |symbols| && r.value.Valid()
    ensures r.Some? ==> r.value == FromSymbols(symbols)
  {
    var ok := AssertValidity(symbols);
    if !ok {
      return None;
    }
    var table := new bool[128](_ => false);
    var i := 0;
    while i < |symbols|
      invariant 0 <= i <= |symbols|
      invariant forall c :: 0 <= c < 128 ==> table[c] == (c in symbols[..i])
    {
      assert symbols[..i + 1] == symbols[..i] + [symbols[i]];
      table[symbols[i]] := true;
      i := i + 1;
    }
    assert symbols[..i] == symbols;
    r := Some(AlphabetInner(symbols, table[..]));
  }

  // The nine standard alphabets, with their symbols in the order the source lists them.

  /** `A-Za-z0-9_-`, the default alphabet. */
  const Base64UrlSymbols: seq<Byte> :=
    ByteString("ABCDEFGHIJKLMNOPQRSTUVWXYZ") + ByteString("abcdefghijklmnopqrstuvwxyz") +
    ByteString("0123456789") + ByteString("_-")
  /** `A-Za-z0-9`. */
  const Base62Symbols: seq<Byte> :=
    ByteString("ABCDEFGHIJKLMNOPQRSTUVWXYZ") + ByteString("abcdefghijklmnopqrstuvwxyz") +
    ByteString("0123456789")
  /** `A-Za-z0-9` without the look-alikes `0OlI`. */
  const Base58Symbols: seq<Byte> :=
    ByteString("ABCDEFGHJKLMNPQRSTUVWXYZ") + ByteString("abcdefghijkmnopqrstuvwxyz") +
    ByteString("123456789")
  /** `A-Z0-9`. */
  const Base36Symbols: seq<Byte> :=
    ByteString("ABCDEFGHIJKLMNOPQRSTUVWXYZ") + ByteString("0123456789")
  /** `a-z0-9`. */
  const Base36LowercaseSymbols: seq<Byte> :=
    ByteString("abcdefghijklmnopqrstuvwxyz") + ByteString("0123456789")
  /** `A-Z2-7`. */
  const Base32Symbols: seq<Byte> :=
    ByteString("ABCDEFGHIJKLMNOPQRSTUVWXYZ") + ByteString("234567")
  /** `a-z2-7`. */
  const Base32LowercaseSymbols: seq<Byte> :=
    ByteString("abcdefghijklmnopqrstuvwxyz") + ByteString("234567")
  /** `A-F0-9`. */
  const Base16Symbols: seq<Byte> :=
    ByteString("ABCDEF") + ByteString("0123456789")
  /** `a-f0-9`. */
  const Base16LowercaseSymbols: seq<Byte> :=
    ByteString("abcdef") + ByteString("0123456789")

  const Base64Url: AlphabetInner := FromSymbols(Base64UrlSymbols)
  const Base62: AlphabetInner := FromSymbols(Base62Symbols)
  const Base58: AlphabetInner := FromSymbols(Base58Symbols)
  const Base36: AlphabetInner := FromSymbols(Base36Symbols)
  const Base36Lowercase: AlphabetInner := FromSymbols(Base36LowercaseSymbols)
  const Base32: AlphabetInner := FromSymbols(Base32Symbols)
  const Base32Lowercase: AlphabetInner := FromSymbols(Base32LowercaseSymbols)
  const Base16: AlphabetInner := FromSymbols(Base16Symbols)
  const Base16Lowercase: AlphabetInner := FromSymbols(Base16LowercaseSymbols)

  /** The sizes of the nine standard alphabets. */
  lemma StandardSizes()
    ensures Base64Url.Len() == 64 && Base62.Len() == 62 && Base58.Len() == 58
    ensures Base36.Len() == 36 && Base36Lowercase.Len() == 36
    ensures Base32.Len() == 32 && Base32Lowercase.Len() == 32
    ensures Base16.Len() == 16 && Base16Lowercase.Len() == 16
  {
  }

  /** The first and last symbol of each standard alphabet. */
  lemma StandardEnds()
    ensures Base64Url.Get(0) == 'A' as int && Base64Url.Get(63) == '-' as int
    ensures Base62.Get(0) == 'A' as int && Base62.Get(61) == '9' as int
    ensures Base58.Get(0) == 'A' as int && Base58.Get(57) == '9' as int
    ensures Base36.Get(0) == 'A' as int && Base36.Get(35) == '9' as int
    ensures Base36Lowercase.Get(0) == 'a' as int && Base36Lowercase.Get(35) == '9' as int
    ensures Base32.Get(0) == 'A' as int && Base32.Get(31) == '7' as int
    ensures Base32Lowercase.Get(0) == 'a' as int && Base32Lowercase.Get(31) == '7' as int
    ensures Base16.Get(0) == 'A' as int && Base16.Get(15) == '9' as int
    ensures Base16Lowercase.Get(0) == 'a' as int && Base16Lowercase.Get(15) == '9' as int
  {
    StandardSizes();
  }

  /** Letters, digits and the two punctuation symbols of the standard alphabets. */
  predicate IsUpper(c: Byte) { InRange(c, 'A', 'Z') }
  predicate IsLower(c: Byte) { InRange(c, 'a', 'z') }
  predicate IsDigit(c: Byte) { InRange(c, '0', '9') }

  lemma SpanTexts()
    ensures ByteString("ABCDEFGHIJKLMNOPQRSTUVWXYZ") == Span('A', 'Z')
    ensures ByteString("abcdefghijklmnopqrstuvwxyz") == Span('a', 'z')
    ensures ByteString("0123456789") == Span('0', '9')
    ensures ByteString("234567") == Span('2', '7')
    ensures ByteString("ABCDEF") == Span('A', 'F')
    ensures ByteString("abcdef") == Span('a', 'f')
  {
  }

  /** The three pieces of the Base58 symbol string, as runs of consecutive bytes. */
  lemma Base58Texts()
    ensures ByteString("ABCDEFGHJKLMNPQRSTUVWXYZ") == Span('A', 'H') + Span('J', 'N') + Span('P', 'Z')
    ensures ByteString("abcdefghijkmnopqrstuvwxyz") == Span('a', 'k') + Span('m', 'z')
    ensures ByteString("123456789") == Span('1', '9')
  {
  }

  /** Base64Url holds exactly `A-Za-z0-9_-`. */
  lemma Base64UrlMembers(c: Byte)
    requires IsAscii(c)
    ensures Base64Url.Contains(c) <==> IsUpper(c) || IsLower(c) || IsDigit(c) || c == '_' as int || c == '-' as int
  {
    SpanTexts();
    InSpan('A', 'Z', c);
    InSpan('a', 'z', c);
    InSpan('0', '9', c);
    var tail := ByteString("_-");
    assert c in tail <==> c == '_' as int || c == '-' as int by {
      if c in tail { var i :| 0 <= i < 2 && tail[i] == c; }
      else { assert tail[0] == '_' as int && tail[1] == '-' as int; }
    }
    assert Base64Url.Contains(c) <==> c in Base64UrlSymbols;
  }

  /** Base62 holds exactly `A-Za-z0-9`. */
  lemma Base62Members(c: Byte)
    requires IsAscii(c)
    ensures Base62.Contains(c) <==> IsUpper(c) || IsLower(c) || IsDigit(c)
  {
    SpanTexts();
    InSpan('A', 'Z', c);
    InSpan('a', 'z', c);
    InSpan('0', '9', c);
    assert Base62.Contains(c) <==> c in Base62Symbols;
  }

  /** Base58 holds exactly `A-Za-z1-9` less `O`, `I` and `l`. */
  lemma Base58Members(c: Byte)
    requires IsAscii(c)
    ensures Base58.Contains(c) <==>
      (IsUpper(c) && c != 'I' as int && c != 'O' as int) || (IsLower(c) && c != 'l' as int) || (IsDigit(c) && c != '0' as int)
  {
    Base58Texts();
    InSpan('A', 'H', c);
    InSpan('J', 'N', c);
    InSpan('P', 'Z', c);
    InSpan('a', 'k', c);
    InSpan('m', 'z', c);
    InSpan('1', '9', c);
    assert Base58.Contains(c) <==> c in Base58Symbols;
  }

  /** Base36 holds exactly `A-Z0-9`. */
  lemma Base36Members(c: Byte)
    requires IsAscii(c)
    ensures Base36.Contains(c) <==> IsUpper(c) || IsDigit(c)
  {
    SpanTexts();
    InSpan('A', 'Z', c);
    InSpan('0', '9', c);
    assert Base36.Contains(c) <==> c in Base36Symbols;
  }

  /** Base36Lowercase holds exactly `a-z0-9`. */
  lemma Base36LowercaseMembers(c: Byte)
    requires IsAscii(c)
    ensures Base36Lowercase.Contains(c) <==> IsLower(c) || IsDigit(c)
  {
    SpanTexts();
    InSpan('a', 'z', c);
    InSpan('0', '9', c);
    assert Base36Lowercase.Contains(c) <==> c in Base36LowercaseSymbols;
  }

  /** Base32 holds exactly `A-Z2-7`. */
  lemma Base32Members(c: Byte)
    requires IsAscii(c)
    ensures Base32.Contains(c) <==> IsUpper(c) || InRange(c, '2', '7')
  {
    SpanTexts();
    InSpan('A', 'Z', c);
    InSpan('2', '7', c);
    assert Base32.Contains(c) <==> c in Base32Symbols;
  }

  /** Base32Lowercase holds exactly `a-z2-7`. */
  lemma Base32LowercaseMembers(c: Byte)
    requires IsAscii(c)
    ensures Base32Lowercase.Contains(c) <==> IsLower(c) || InRange(c, '2', '7')
  {
    SpanTexts();
    InSpan('a', 'z', c);
    InSpan('2', '7', c);
    assert Base32Lowercase.Contains(c) <==> c in Base32LowercaseSymbols;
  }

  /** Base16 holds exactly `A-F0-9`. */
  lemma Base16Members(c: Byte)
    requires IsAscii(c)
    ensures Base16.Contains(c) <==> InRange(c, 'A', 'F') || IsDigit(c)
  {
    SpanTexts();
    InSpan('A', 'F', c);
    InSpan('0', '9', c);
    assert Base16.Contains(c) <==> c in Base16Symbols;
  }

  /** Base16Lowercase holds exactly `a-f0-9`. */
  lemma Base16LowercaseMembers(c: Byte)
    requires IsAscii(c)
    ensures Base16Lowercase.Contains(c) <==> InRange(c, 'a', 'f') || IsDigit(c)
  {
    SpanTexts();
    InSpan('a', 'f', c);
    InSpan('0', '9', c);
    assert Base16Lowercase.Contains(c) <==> c in Base16LowercaseSymbols;
  }

  /** Members and non-members of each standard alphabet, among them the
      look-alike `0` missing from Base58 and `-` missing from Base62. */
  lemma StandardMembershipExamples()
    ensures Base64Url.Contains('A' as int) && !Base64Url.Contains(':' as int)
    ensures Base62.Contains('A' as int) && !Base62.Contains('-' as int)
    ensures Base58.Contains('A' as int) && !Base58.Contains('0' as int)
    ensures Base36.Contains('A' as int) && !Base36.Contains('a' as int)
    ensures Base36Lowercase.Contains('a' as int) && !Base36Lowercase.Contains('A' as int)
    ensures Base32.Contains('A' as int) && !Base32.Contains('8' as int)
    ensures Base32Lowercase.Contains('a' as int) && !Base32Lowercase.Contains('8' as int)
    ensures Base16.Contains('A' as int) && !Base16.Contains('Z' as int)
    ensures Base16Lowercase.Contains('a' as int) && !Base16Lowercase.Contains('z' as int)
  {
    Base64UrlMembers('A' as int);
    Base64UrlMembers(':' as int);
    Base62Members('A' as int);
    Base62Members('-' as int);
    Base58Members('A' as int);
    Base58Members('0' as int);
    Base36Members('A' as int);
    Base36Members('a' as int);
    Base36LowercaseMembers('a' as int);
    Base36LowercaseMembers('A' as int);
    Base32Members('A' as int);
    Base32Members('8' as int);
    Base32LowercaseMembers('a' as int);
    Base32LowercaseMembers('8' as int);
    Base16Members('A' as int);
    Base16Members('Z' as int);
    Base16LowercaseMembers('a' as int);
    Base16LowercaseMembers('z' as int);
  }

  /** The alphabet built from `abc123XYZ#`: ten symbols, first `a`, last `#`,
      containing `1` but not `0`; adding the byte 0xa0 makes it invalid. */
  lemma InnerExamples()
    ensures var symbols := ByteString("abc123XYZ#");
      var a := FromSymbols(symbols);
      a.Len() == 10 && a.Get(0) == 'a' as int && a.Get(9) == '#' as int &&
      a.Contains('1' as int) && !a.Contains('0' as int) &&
      !AllAscii(symbols + [0xa0])
  {
    var symbols := ByteString("abc123XYZ#");
    assert symbols[3] == '1' as int;
    assert (symbols + [0xa0])[10] == 0xa0;
  }
}
