/** Nano IDs: a buffer of exactly `n` bytes, every one an ASCII member of the
    alphabet `a`. The source fixes `n` and `a` as type parameters
    (`Nanoid<N, A>`); here they are passed to each operation. */
module Nanoid {
  import opened Bytes
  import opened Outcomes
  import opened Alphabet

  /** `Nanoid<N, A>`: the byte buffer `inner`, its entire state. */
  datatype Nanoid = Nanoid(inner: seq<Byte>)

  /** Why parsing failed. */
  datatype ParseError =
    | InvalidLength(expected: nat, actual: nat)
    | InvalidCharacter(character: Byte)

  /** Why generation panicked: the sampler refuses the empty range `0..0`, and
      the ASCII assertion refuses a non-ASCII symbol from the alphabet. */
  datatype GenerationPanic = EmptyRange | NonAsciiSymbol

  /** The result of `Ord::cmp`. */
  datatype Ordering = Less | Equal | Greater
  {
    function Reverse(): Ordering {
      match this
      case Less => Greater
      case Equal => Equal
      case Greater => Less
    }
  }

  /** The byte test of parsing: ASCII first, and only then alphabet membership,
      since `contains` indexes a 128-entry table. */
  predicate Accepts(a: AlphabetInner, b: Byte)
    ensures a.Valid() ==> (Accepts(a, b) <==> b in a.symbols)
  {
    IsAscii(b) && a.Contains(b)
  }

  /** The invariant every live `Nanoid<n, a>` satisfies. */
  predicate IsNanoid(id: Nanoid, n: nat, a: AlphabetInner) {
    |id.inner| == n && forall i :: 0 <= i < n ==> Accepts(a, id.inner[i])
  }

  // ---------------------------------------------------------------- generation

  /** What `new_with` yields when the sampler draws the indices `draws`, one per
      position, each below `a.Len()`. An empty alphabet draws nothing: the
      sampler for the empty range panics before the first position. */
  function Generate(n: nat, a: AlphabetInner, draws: seq<nat>): (r: Result<Nanoid, GenerationPanic>)
    requires |draws| == n
    requires a.Len() > 0 ==> forall k :: 0 <= k < n ==> draws[k] < a.Len()
    ensures a.Len() == 0 ==> r == Failure(EmptyRange)
    ensures a.Len() > 0 ==> (r.Success? <==> forall k :: 0 <= k < n ==> IsAscii(a.Get(draws[k])))
    ensures r.Failure? && a.Len() > 0 ==> r.error == NonAsciiSymbol
    ensures r.Success? ==> |r.value.inner| == n && forall k :: 0 <= k < n ==> r.value.inner[k] == a.Get(draws[k])
  {
    if a.Len() == 0 then
      Failure(EmptyRange)
    else if forall k :: 0 <= k < n ==> IsAscii(a.Get(draws[k])) then
      Success(Nanoid(seq(n, k requires 0 <= k < n => a.Get(draws[k]))))
    else
      Failure(NonAsciiSymbol)
  }

  /** `Nanoid::new_with`: fills a buffer of `n` bytes, slot by slot, with the
      symbol at the next drawn index, asserting that each is ASCII. */
  method NewWith(n: nat, a: AlphabetInner, draws: seq<nat>) returns (r: Result<Nanoid, GenerationPanic>)
    requires |draws| == n
    requires a.Len() > 0 ==> forall k :: 0 <= k < n ==> draws[k] < a.Len()
    ensures r == Generate(n, a, draws)
  {
    if a.Len() == 0 {
      return Failure(EmptyRange);
    }
    var buf := new Byte[n];
    for k := 0 to n
      invariant forall j :: 0 <= j < k ==> buf[j] == a.Get(draws[j]) && IsAscii(buf[j])
    {
      var s := a.Get(draws[k]);
      if !IsAscii(s) {
        return Failure(NonAsciiSymbol);
      }
      buf[k] := s;
    }
    assert buf[..] == seq(n, k requires 0 <= k < n => a.Get(draws[k]));
    r := Success(Nanoid(buf[..]));
  }

  /** A valid, non-empty alphabet never makes generation panic, and what it
      generates satisfies the `Nanoid` invariant without being checked. */
  lemma GeneratedIsNanoid(n: nat, a: AlphabetInner, draws: seq<nat>)
    requires a.Valid() && a.Len() > 0
    requires |draws| == n
    requires forall k :: 0 <= k < n ==> draws[k] < a.Len()
    ensures Generate(n, a, draws).Success?
    ensures IsNanoid(Generate(n, a, draws).value, n, a)
  {
  }

  // ---------------------------------------------------------------- parsing

  /** `i` is the first position, left to right, whose byte parsing rejects. */
  predicate IsFirstRejected(a: AlphabetInner, s: seq<Byte>, i: int) {
    0 <= i < |s| && !Accepts(a, s[i]) && forall j :: 0 <= j < i ==> Accepts(a, s[j])
  }

  /** The position of the first rejected byte of `s`, if there is one. */
  function FirstRejected(a: AlphabetInner, s: seq<Byte>): (r: Option<nat>)
    ensures r.None? <==> forall i :: 0 <= i < |s| ==> Accepts(a, s[i])
    ensures r.Some? ==> IsFirstRejected(a, s, r.value)
    decreases |s|
  {
    if |s| == 0 then None
    else if !Accepts(a, s[0]) then Some(0)
    else match FirstRejected(a, s[1..])
      case None => None
      case Some(i) => Some(i + 1)
  }

  /** What `try_from_bytes` specifies for a buffer: the first rejected byte as
      the error, or else the buffer itself, unchanged, as the identifier. */
  function CheckBytes(a: AlphabetInner, buf: seq<Byte>): (r: Result<Nanoid, ParseError>)
    ensures r.Success? <==> forall i :: 0 <= i < |buf| ==> Accepts(a, buf[i])
    ensures r.Success? ==> r.value.inner == buf
    ensures forall i :: IsFirstRejected(a, buf, i) ==> r == Failure(InvalidCharacter(buf[i]))
    ensures r.Failure? ==> exists i :: IsFirstRejected(a, buf, i)
  {
    match FirstRejected(a, buf)
    case Some(i) => Failure(InvalidCharacter(buf[i]))
    case None => Success(Nanoid(buf))
  }

  /** `Nanoid::try_from_bytes`: scans the bytes left to right and returns at
      the first one that is not ASCII or not in the alphabet. */
  method TryFromBytes(a: AlphabetInner, buf: seq<Byte>) returns (r: Result<Nanoid, ParseError>)
    ensures r == CheckBytes(a, buf)
  {
    for i := 0 to |buf|
      invariant forall j :: 0 <= j < i ==> Accepts(a, buf[j])
    {
      var b := buf[i];
      if !IsAscii(b) || !a.Contains(b) {
        return Failure(InvalidCharacter(b));
      }
    }
    return Success(Nanoid(buf));
  }

  /** `Nanoid::try_from_str`: the byte length must be `n`, and then every byte
      must pass, the first failing one being reported. */
  function TryFromStr(n: nat, a: AlphabetInner, s: seq<Byte>): (r: Result<Nanoid, ParseError>)
    ensures |s| != n ==> r == Failure(InvalidLength(n, |s|))
    ensures |s| == n ==> (r.Success? <==> forall i :: 0 <= i < |s| ==> Accepts(a, s[i]))
    ensures |s| == n ==> forall i :: IsFirstRejected(a, s, i) ==> r == Failure(InvalidCharacter(s[i]))
    ensures r.Success? ==> IsNanoid(r.value, n, a) && AsStr(r.value) == s
  {
    if |s| != n then Failure(InvalidLength(n, |s|)) else CheckBytes(a, s)
  }

  /** `Nanoid::as_str`: the identifier's bytes, unchanged; for a live
      `Nanoid<n, a>` that is `n` ASCII bytes. */
  function AsStr(id: Nanoid): (s: seq<Byte>)
    ensures forall n: nat, a :: IsNanoid(id, n, a) ==> |s| == n && AllAscii(s)
  {
    id.inner
  }

  /** The bytes of a live identifier are ASCII, so reading them as text
      without a UTF-8 check is sound. */
  lemma AsStrIsAscii(id: Nanoid, n: nat, a: AlphabetInner)
    requires IsNanoid(id, n, a)
    ensures AllAscii(AsStr(id))
  {
  }

  /** Parsing the text of any live identifier gives back that identifier. */
  lemma ParseAsStr(id: Nanoid, n: nat, a: AlphabetInner)
    requires IsNanoid(id, n, a)
    ensures TryFromStr(n, a, AsStr(id)) == Success(id)
  {
  }

  /** Round trip from generation: what a valid alphabet generates parses back
      from its text to an equal identifier. */
  lemma GenerateParseRoundTrip(n: nat, a: AlphabetInner, draws: seq<nat>)
    requires a.Valid() && a.Len() > 0
    requires |draws| == n
    requires forall k :: 0 <= k < n ==> draws[k] < a.Len()
    ensures Generate(n, a, draws).Success?
    ensures var id := Generate(n, a, draws).value;
      TryFromStr(n, a, AsStr(id)) == Success(id)
  {
    GeneratedIsNanoid(n, a, draws);
    ParseAsStr(Generate(n, a, draws).value, n, a);
  }

  // ---------------------------------------------------------------- equality and order

  /** `PartialEq::eq`: byte-for-byte equality of the buffers. */
  function Eq(x: Nanoid, y: Nanoid): (r: bool)
    ensures r <==> x == y
  {
    x.inner == y.inner
  }

  /** Lexicographic comparison of byte strings, as Rust orders `[u8]`: the first
      differing byte decides, and a proper prefix comes first. */
  function LexCmp(s: seq<Byte>, t: seq<Byte>): (r: Ordering)
    ensures r == Equal ==> |s| == |t|
    ensures |s| < |t| && s == t[..|s|] ==> r == Less
    decreases |s|
  {
    if |s| == 0 then (if |t| == 0 then Equal else Less)
    else if |t| == 0 then Greater
    else if s[0] < t[0] then Less
    else if s[0] > t[0] then Greater
    else LexCmp(s[1..], t[1..])
  }

  /** The textbook definition of "`s` comes before `t`": they agree up to some
      position `k`, where either `s` ends and `t` goes on, or `s` has the
      smaller byte. */
  ghost predicate LexLess(s: seq<Byte>, t: seq<Byte>) {
    exists k :: 0 <= k <= |s| && k <= |t| && s[..k] == t[..k] &&
      (k == |s| < |t| || (k < |s| && k < |t| && s[k] < t[k]))
  }

  /** Comparison answers `Equal` exactly for equal byte strings. */
  lemma {:induction false} LexCmpEqual(s: seq<Byte>, t: seq<Byte>)
    ensures LexCmp(s, t) == Equal <==> s == t
    decreases |s|
  {
    if |s| > 0 && |t| > 0 && s[0] == t[0] {
      LexCmpEqual(s[1..], t[1..]);
      if s[1..] == t[1..] {
        assert s == [s[0]] + s[1..] && t == [t[0]] + t[1..];
      }
    }
  }

  /** Comparison is antisymmetric: swapping the arguments reverses the answer. */
  lemma {:induction false} LexCmpReverse(s: seq<Byte>, t: seq<Byte>)
    ensures LexCmp(t, s) == LexCmp(s, t).Reverse()
    decreases |s|
  {
    if |s| > 0 && |t| > 0 && s[0] == t[0] {
      LexCmpReverse(s[1..], t[1..]);
    }
  }

  /** `Less` is transitive. */
  lemma {:induction false} LexCmpTransitive(s: seq<Byte>, t: seq<Byte>, u: seq<Byte>)
    requires LexCmp(s, t) == Less && LexCmp(t, u) == Less
    ensures LexCmp(s, u) == Less
    decreases |s|
  {
    if |s| > 0 && |t| > 0 && |u| > 0 && s[0] == t[0] && t[0] == u[0] {
      LexCmpTransitive(s[1..], t[1..], u[1..]);
    }
  }

  /** The recursive comparison agrees with the reference definition `LexLess`. */
  lemma {:induction false} LexCmpLess(s: seq<Byte>, t: seq<Byte>)
    ensures LexCmp(s, t) == Less <==> LexLess(s, t)
    decreases |s|
  {
    if |s| == 0 || |t| == 0 {
      if LexCmp(s, t) == Less {
        assert s[..0] == t[..0];
      }
    } else if s[0] != t[0] {
      if s[0] < t[0] {
        assert s[..0] == t[..0];
      } else {
        forall k | 0 <= k <= |s| && k <= |t| && s[..k] == t[..k]
          ensures !(k == |s| < |t| || (k < |s| && k < |t| && s[k] < t[k]))
        {
        }
      }
    } else {
      LexCmpLess(s[1..], t[1..]);
      if LexLess(s[1..], t[1..]) {
        var k :| 0 <= k <= |s[1..]| && k <= |t[1..]| && s[1..][..k] == t[1..][..k] &&
          (k == |s[1..]| < |t[1..]| || (k < |s[1..]| && k < |t[1..]| && s[1..][k] < t[1..][k]));
        assert s[..k + 1] == [s[0]] + s[1..][..k];
        assert t[..k + 1] == [t[0]] + t[1..][..k];
      }
      if LexLess(s, t) {
        var k :| 0 <= k <= |s| && k <= |t| && s[..k] == t[..k] &&
          (k == |s| < |t| || (k < |s| && k < |t| && s[k] < t[k]));
        assert k > 0;
        assert s[1..][..k - 1] == s[..k][1..] && t[1..][..k - 1] == t[..k][1..];
      }
    }
  }

  /** `Ord::cmp`: byte-lexicographic order of the buffers, `Equal` exactly for
      equal identifiers and `Less` exactly when `x`'s bytes come first. */
  function Cmp(x: Nanoid, y: Nanoid): (r: Ordering)
    ensures r == Equal <==> Eq(x, y)
    ensures r == Less <==> LexLess(x.inner, y.inner)
  {
    LexCmpEqual(x.inner, y.inner);
    LexCmpLess(x.inner, y.inner);
    LexCmp(x.inner, y.inner)
  }

  /** Swapping the arguments of `Cmp` reverses its answer. */
  lemma CmpReverse(x: Nanoid, y: Nanoid)
    ensures Cmp(y, x) == Cmp(x, y).Reverse()
  {
    LexCmpReverse(x.inner, y.inner);
  }

  /** `Cmp` is transitive; with `CmpReverse` and the contract of `Cmp` this
      makes it a total order. */
  lemma CmpTransitive(x: Nanoid, y: Nanoid, z: Nanoid)
    requires Cmp(x, y) == Less && Cmp(y, z) == Less
    ensures Cmp(x, z) == Less
  {
    LexCmpTransitive(x.inner, y.inner, z.inner);
  }
}
