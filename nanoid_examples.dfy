/** The concrete cases of the identifier's unit tests, stated about the model.
    Non-ASCII text is given by its UTF-8 bytes. */
module NanoidExamples {
  import opened Bytes
  import opened Outcomes
  import opened Alphabet
  import opened Nanoid

  /** "あいうえお" in UTF-8: five characters, fifteen bytes. */
  const Aiueo: seq<Byte> := [0xe3, 0x81, 0x82, 0xe3, 0x81, 0x84, 0xe3, 0x81, 0x86, 0xe3, 0x81, 0x88, 0xe3, 0x81, 0x8a]
  /** "アイ" in UTF-8: two characters, six bytes. */
  const Ai: seq<Byte> := [0xe3, 0x82, 0xa2, 0xe3, 0x82, 0xa4]

  /** A wrong byte length is reported with both lengths, whatever the bytes. */
  lemma InvalidLengthExamples()
    ensures TryFromStr(21, Base64Url, ByteString("ABCDEF123!!")) == Failure(InvalidLength(21, 11))
    ensures TryFromStr(21, Base62, ByteString("#1234567890123456789012345")) == Failure(InvalidLength(21, 26))
    ensures TryFromStr(21, Base58, Aiueo) == Failure(InvalidLength(21, 15))
    ensures TryFromStr(6, Base64Url, ByteString("abcdefg")) == Failure(InvalidLength(6, 7))
    ensures TryFromStr(10, Base62, ByteString("-_-_")) == Failure(InvalidLength(10, 4))
    ensures TryFromStr(12, Base58, ByteString("###")) == Failure(InvalidLength(12, 3))
  {
  }

  /** A leading byte outside the alphabet is the error. */
  lemma InvalidCharacterDollar()
    ensures TryFromStr(21, Base64Url, ByteString("$TQBHLT47zhMMxee2LRSo")) == Failure(InvalidCharacter('$' as int))
  {
    Base64UrlMembers('$' as int);
    assert IsFirstRejected(Base64Url, ByteString("$TQBHLT47zhMMxee2LRSo"), 0);
  }

  /** A multi-byte character is reported by its first byte. */
  lemma InvalidCharacterMultiByte()
    ensures TryFromStr(6, Base64Url, Ai) == Failure(InvalidCharacter(0xe3))
  {
    assert IsFirstRejected(Base64Url, Ai, 0);
  }

  /** The first rejected byte is the error, even though the later spaces and
      newlines are rejected too. */
  lemma InvalidCharacterSpace()
    ensures TryFromStr(10, Base62, ByteString(" \n \n \n \n \n")) == Failure(InvalidCharacter(' ' as int))
  {
    Base62Members(' ' as int);
    assert IsFirstRejected(Base62, ByteString(" \n \n \n \n \n"), 0);
  }

  lemma InvalidCharacterAfterDigits()
    ensures TryFromStr(21, Base62, ByteString("1234567890-1234567890")) == Failure(InvalidCharacter('-' as int))
  {
    var s := ByteString("1234567890-1234567890");
    forall j | 0 <= j < 10 ensures Accepts(Base62, s[j]) {
      Base62Members(s[j]);
    }
    Base62Members('-' as int);
    assert IsFirstRejected(Base62, s, 10);
  }

  lemma InvalidCharacterCapitalI()
    ensures TryFromStr(21, Base58, ByteString("AtDQpkiYrFufeIGWbcSRk")) == Failure(InvalidCharacter('I' as int))
  {
    var s := ByteString("AtDQpkiYrFufeIGWbcSRk");
    forall j | 0 <= j < 13 ensures Accepts(Base58, s[j]) {
      Base58Members(s[j]);
    }
    Base58Members('I' as int);
    assert IsFirstRejected(Base58, s, 13);
  }

  lemma InvalidCharacterLowercaseL()
    ensures TryFromStr(12, Base58, ByteString("abcdefghijkl")) == Failure(InvalidCharacter('l' as int))
  {
    var t := ByteString("abcdefghijkl");
    forall j | 0 <= j < 11 ensures Accepts(Base58, t[j]) {
      Base58Members(t[j]);
    }
    Base58Members('l' as int);
    assert IsFirstRejected(Base58, t, 11);
  }

  /** A valid text parses, and the identifier's text is the input. */
  lemma ValidExample()
    ensures var s := ByteString("ABCDEFGHIJKLMNOPQ123_");
      TryFromStr(21, Base64Url, s).Success? && AsStr(TryFromStr(21, Base64Url, s).value) == s
  {
    var s := ByteString("ABCDEFGHIJKLMNOPQ123_");
    forall j | 0 <= j < |s| ensures Accepts(Base64Url, s[j]) {
      Base64UrlMembers(s[j]);
    }
  }

  /** `abc12-` comes before `abc12_`, since `-` is 0x2d and `_` is 0x5f. */
  lemma OrderExample()
    ensures var x := TryFromStr(6, Base64Url, ByteString("abc12-"));
      var y := TryFromStr(6, Base64Url, ByteString("abc12_"));
      x.Success? && y.Success? && Cmp(x.value, y.value) == Less && Cmp(y.value, x.value) == Greater
  {
    var s, t := ByteString("abc12-"), ByteString("abc12_");
    forall j | 0 <= j < 6 ensures Accepts(Base64Url, s[j]) && Accepts(Base64Url, t[j]) {
      Base64UrlMembers(s[j]);
      Base64UrlMembers(t[j]);
    }
    assert s[..5] == t[..5];
    assert LexLess(s, t);
    CmpReverse(Nanoid(s), Nanoid(t));
  }

  /** A defective alphabet whose only symbol is the byte 0xa0 makes generation
      panic instead of producing an identifier. */
  lemma DefectiveAlphabetPanics()
    ensures Generate(21, AlphabetInner([0xa0], seq(128, _ => false)), seq(21, _ => 0)) == Failure(NonAsciiSymbol)
  {
    var a := AlphabetInner([0xa0], seq(128, _ => false));
    assert !IsAscii(a.Get(seq(21, _ => 0)[0]));
  }

  /** An empty alphabet makes generation panic at the sampler, whatever the
      length. */
  lemma EmptyAlphabetPanics()
    ensures Generate(21, AlphabetInner([], seq(128, _ => false)), seq(21, _ => 0)) == Failure(EmptyRange)
  {
  }
}
