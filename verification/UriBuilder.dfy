/**
 ChannelUriStringBuilder (ChannelUriStringBuilder.h): optional fields, printed in a fixed order, and the fields that a
 position is stored in.
 */
module UriBuilders {
  import opened Framing
  import opened ChannelUris

  const PARAMS := 35

  /** The names of the fields, in the order in which they are printed, seven to a row. */
  function Row(r: nat): (names: seq<string>)
    requires r < 5
    ensures |names| == 7
  {
    match r
    case 0 => ["tags", "endpoint", "interface", "control", "control-mode", "mtu", "term-length"]
    case 1 => ["init-term-id", "term-id", "term-offset", "session-id", "ttl", "reliable", "linger"]
    case 2 => ["alias", "cc", "fc", "gtag", "sparse", "eos", "tether"]
    case 3 => ["group", "rejoin", "ssc", "so-sndbuf", "so-rcvbuf", "rcv-wnd", "media-rcv-ts-offset"]
    case _ => ["channel-rcv-ts-offset", "channel-snd-ts-offset", "response-correlation-id", "nak-delay",
               "untethered-window-limit-timeout", "untethered-resting-timeout", "max-resend"]
  }

  /** A field, by its place in that order. */
  type Param = i: nat | i < PARAMS witness 0

  const TermLength: Param := 6
  const InitialTermId: Param := 7
  const TermId: Param := 8
  const TermOffset: Param := 9

  function NameOf(p: Param): string { Row(p / 7)[p % 7] }

  /** What tells the names apart: the length, the first character and the one in the middle. */
  datatype Mark = Mark(length: nat, first: char, middle: char)

  function MarkOf(name: string): Mark
    requires name != ""
  {
    Mark(|name|, name[0], name[|name| / 2])
  }

  function Marks(): (marks: seq<Mark>)
    ensures |marks| == PARAMS
  {
    [
      Mark(4, 't', 'g'), Mark(8, 'e', 'o'), Mark(9, 'i', 'r'), Mark(7, 'c', 't'), Mark(12, 'c', 'l'),
      Mark(3, 'm', 't'), Mark(11, 't', 'l'), Mark(12, 'i', 'e'), Mark(7, 't', 'm'), Mark(11, 't', 'o'),
      Mark(10, 's', 'o'), Mark(3, 't', 't'), Mark(8, 'r', 'a'), Mark(6, 'l', 'g'), Mark(5, 'a', 'i'),
      Mark(2, 'c', 'c'), Mark(2, 'f', 'c'), Mark(4, 'g', 'a'), Mark(6, 's', 'r'), Mark(3, 'e', 'o'),
      Mark(6, 't', 'h'), Mark(5, 'g', 'o'), Mark(6, 'r', 'o'), Mark(3, 's', 's'), Mark(9, 's', 'n'),
      Mark(9, 's', 'c'), Mark(7, 'r', '-'), Mark(19, 'm', '-'), Mark(21, 'c', 'v'), Mark(21, 'c', 'd'),
      Mark(23, 'r', 'r'), Mark(9, 'n', 'd'), Mark(31, 'u', 'o'), Mark(26, 'u', 's'), Mark(10, 'm', 'e')]
  }

  predicate IsName(name: string, mark: Mark) {
    name != "" && CleanKey(name) && MarkOf(name) == mark
  }

  lemma Row0()
    ensures forall i :: 0 <= i < 7 ==> IsName(Row(0)[i], Marks()[i])
  {
  }

  lemma Row1()
    ensures forall i :: 0 <= i < 7 ==> IsName(Row(1)[i], Marks()[7 + i])
  {
  }

  lemma Row2()
    ensures forall i :: 0 <= i < 7 ==> IsName(Row(2)[i], Marks()[14 + i])
  {
  }

  lemma Row3()
    ensures forall i :: 0 <= i < 7 ==> IsName(Row(3)[i], Marks()[21 + i])
  {
  }

  lemma Row4Front()
    ensures forall i :: 0 <= i < 2 ==> IsName(Row(4)[i], Marks()[28 + i])
  {
  }

  lemma Row4Middle()
    ensures forall i :: 2 <= i < 4 ==> IsName(Row(4)[i], Marks()[28 + i])
  {
  }

  lemma Row4Long()
    ensures forall i :: 4 <= i < 5 ==> IsName(Row(4)[i], Marks()[28 + i])
  {
  }

  lemma Row4Back()
    ensures forall i :: 5 <= i < 7 ==> IsName(Row(4)[i], Marks()[28 + i])
  {
  }

  lemma EarlyMarksDiffer()
    ensures forall i, j :: 0 <= i < 11 && i < j < PARAMS ==> Marks()[i] != Marks()[j]
  {
  }

  lemma LateMarksDiffer()
    ensures forall i, j :: 11 <= i < j < PARAMS ==> Marks()[i] != Marks()[j]
  {
  }

  /** No name contains a separator, and no two are the same. */
  lemma NamesAreKeys()
    ensures forall p: Param :: NameOf(p) != "" && CleanKey(NameOf(p))
    ensures forall p: Param, q: Param :: NameOf(p) == NameOf(q) ==> p == q
  {
    hide CleanKey, Marks, MarkOf, NameOf;
    EarlyMarksDiffer();
    LateMarksDiffer();
    forall p: Param
      ensures NameOf(p) != "" && CleanKey(NameOf(p)) && MarkOf(NameOf(p)) == Marks()[p]
    {
      Named(p);
    }
  }

  lemma Named(p: Param)
    ensures IsName(NameOf(p), Marks()[p])
  {
    hide Row, Marks, IsName;
    Row0();
    Row1();
    Row2();
    Row3();
    Row4Front();
    Row4Middle();
    Row4Long();
    Row4Back();
    assert 7 * (p / 7) + p % 7 == p;
  }

  /** What a field holds: numbers and flags are printed, a session id perhaps as a tag. */
  datatype Field = Text(text: string) | Number(n: int) | Tagged(n: int) | Flag(on: bool)

  function Shown(f: Field): string {
    match f
    case Text(text) => text
    case Number(n) => ToDecimal(n)
    case Tagged(n) => "tag:" + ToDecimal(n)
    case Flag(on) => if on then "true" else "false"
  }

  /** What the fields of a builder look like when printed. */
  lemma ShownReads(f: Field)
    ensures match f
            case Text(text) => Shown(f) == text
            case Number(n) => ReadsAs(Shown(f), n)
            case Tagged(n) => |Shown(f)| > 4 && Shown(f)[..4] == "tag:" && ReadsAs(Shown(f)[4..], n)
            case Flag(on) => Shown(f) == if on then "true" else "false"
  {
    match f
    case Number(n) => ToDecimalReads(n);
    case Tagged(n) =>
      ToDecimalReads(n);
      assert Shown(f)[4..] == ToDecimal(n);
    case _ =>
  }

  datatype Builder = Builder(prefix: string, media: string, fields: map<Param, Field>)

  /** The fields that are set, as they are appended. */
  function Appended(fields: map<Param, Field>, from: nat): string
    requires from <= PARAMS
    decreases PARAMS - from
  {
    if from == PARAMS then ""
    else (if from in fields then NameOf(from) + "=" + Shown(fields[from]) + "|" else "") + Appended(fields, from + 1)
  }

  /** build: the last character is taken off again, be it '|' or '?'. */
  function Build(b: Builder): string {
    var sb := (if b.prefix == "" then "" else b.prefix + ":") + AERON_PREFIX + b.media + "?" + Appended(b.fields, 0);
    if sb[|sb| - 1] == '|' || sb[|sb| - 1] == '?' then sb[..|sb| - 1] else sb
  }

  function PairsSet(fields: map<Param, Field>, from: nat): seq<Pair>
    requires from <= PARAMS
    decreases PARAMS - from
  {
    if from == PARAMS then []
    else (if from in fields then [Pair(NameOf(from), Shown(fields[from]))] else []) + PairsSet(fields, from + 1)
  }

  lemma {:induction false} AppendedJoins(fields: map<Param, Field>, from: nat)
    requires from <= PARAMS
    ensures Appended(fields, from)
            == if PairsSet(fields, from) == [] then "" else Joined(PairsSet(fields, from)) + "|"
    decreases PARAMS - from
  {
    if from < PARAMS {
      AppendedJoins(fields, from + 1);
      var rest := PairsSet(fields, from + 1);
      if from in fields {
        var pair := Pair(NameOf(from), Shown(fields[from]));
        AppendPair(pair, rest);
        assert PairsSet(fields, from) == [pair] + rest;
      } else {
        assert PairsSet(fields, from) == rest;
      }
    }
  }

  lemma AppendPair(pair: Pair, rest: seq<Pair>)
    ensures pair.key + "=" + pair.value + "|" + (if rest == [] then "" else Joined(rest) + "|") == Joined([pair] + rest)
            + "|"
  {
    JoinedFirst(pair, rest);
    hide Joined;
    if rest == [] {
      assert pair.key + "=" + pair.value + "" == pair.key + "=" + pair.value;
    } else {
      assert pair.key + "=" + pair.value + "|" + (Joined(rest) + "|") == pair.key + "=" + pair.value
             + ("|" + Joined(rest)) + "|";
    }
  }

  /** Builders as the setters leave them: prefix and media are checked there. */
  predicate Checked(b: Builder) {
    (b.prefix == "" || b.prefix == SPY_QUALIFIER) && KnownMedia(b.media)
  }

  /** build is the printer of URIs on the fields that are set. */
  lemma BuildComposes(b: Builder)
    requires Checked(b)
    ensures Build(b) == Composed(b.prefix, b.media, PairsSet(b.fields, 0))
  {
    hide Appended, PairsSet, Joined, KnownMedia;
    AppendedJoins(b.fields, 0);
    var pairs := PairsSet(b.fields, 0);
    var head := PrintedPrefix(b.prefix) + AERON_PREFIX + b.media;
    assert (if b.prefix == "" then "" else b.prefix + ":") == PrintedPrefix(b.prefix);
    if pairs == [] {
      assert head + "?" + "" == head + "?";
      assert (head + "?")[..|head + "?"| - 1] == head;
      assert head + "" == head;
    } else {
      var sb := head + "?" + (Joined(pairs) + "|");
      assert sb[..|sb| - 1] == head + ("?" + Joined(pairs));
    }
  }

  /** The map that the fields stand for. */
  ghost predicate IsFieldMap(b: Builder, params: map<string, string>) {
    && (forall p: Param :: p in b.fields ==> NameOf(p) in params && params[NameOf(p)] == Shown(b.fields[p]))
    && forall k :: k in params ==> exists p: Param :: p in b.fields && NameOf(p) == k
  }

  predicate IsPairOf(fields: map<Param, Field>, p: Param, pair: Pair) {
    p in fields && pair == Pair(NameOf(p), Shown(fields[p]))
  }

  ghost predicate IsField(fields: map<Param, Field>, pair: Pair) {
    exists p: Param :: IsPairOf(fields, p, pair)
  }

  lemma {:induction false} PairsSetFields(fields: map<Param, Field>, from: nat)
    requires from <= PARAMS
    ensures forall i :: 0 <= i < |PairsSet(fields, from)| ==> IsField(fields, PairsSet(fields, from)[i])
    ensures forall p: Param :: from <= p && p in fields ==> Pair(NameOf(p), Shown(fields[p])) in PairsSet(fields, from)
    decreases PARAMS - from
  {
    hide NameOf, Shown;
    if from < PARAMS {
      PairsSetFields(fields, from + 1);
      var pairs, rest := PairsSet(fields, from), PairsSet(fields, from + 1);
      forall i | 0 <= i < |pairs|
        ensures IsField(fields, pairs[i])
      {
        if from in fields && i == 0 {
          assert IsPairOf(fields, from, pairs[i]);
        } else {
          assert pairs[i] == rest[if from in fields then i - 1 else i];
        }
      }
      forall p: Param | from <= p && p in fields
        ensures Pair(NameOf(p), Shown(fields[p])) in pairs
      {
        assert p == from || from + 1 <= p;
      }
    }
  }

  /** What build returns parses back to the fields that were set exactly when no value contains a '|'. */
  lemma BuildParses(b: Builder)
    requires Checked(b)
    ensures (exists params :: IsFieldMap(b, params) && Parse(Build(b)) == Ok(Uri(b.prefix, b.media, params)))
            <==> forall p: Param :: p in b.fields ==> CleanValue(Shown(b.fields[p]))
  {
    hide Build, Parse, Shown, NameOf;
    if forall p: Param :: p in b.fields ==> CleanValue(Shown(b.fields[p])) {
      var params := CleanFieldsParse(b);
    }
    ParsedIsWellFormed(Build(b));
    forall params, p: Param | IsFieldMap(b, params) && Parse(Build(b)) == Ok(Uri(b.prefix, b.media, params))
      && p in b.fields
      ensures CleanValue(Shown(b.fields[p]))
    {
      assert WellFormedPair(Pair(NameOf(p), params[NameOf(p)]));
    }
  }

  lemma CleanFieldsParse(b: Builder) returns (params: map<string, string>)
    requires Checked(b) && forall p: Param :: p in b.fields ==> CleanValue(Shown(b.fields[p]))
    ensures IsFieldMap(b, params) && Parse(Build(b)) == Ok(Uri(b.prefix, b.media, params))
  {
    hide Build, Parse, Shown, NameOf, PairsSet, Composed, IsFieldMap;
    BuildComposes(b);
    var pairs := PairsSet(b.fields, 0);
    SetPairs(b);
    NamesAreKeys();
    forall i | 0 <= i < |pairs|
      ensures WellFormedPair(pairs[i])
    {
      assert IsField(b.fields, pairs[i]);
      var p: Param :| IsPairOf(b.fields, p, pairs[i]);
    }
    MediaIsClean(b.media);
    ComposedParses(b.prefix, b.media, pairs);
    FieldMapRebuilt(b, pairs);
    params := FirstWins(map[], pairs);
  }

  lemma SetPairs(b: Builder)
    ensures var pairs := PairsSet(b.fields, 0);
            && (forall i :: 0 <= i < |pairs| ==> IsField(b.fields, pairs[i]))
            && forall p: Param :: p in b.fields ==> Pair(NameOf(p), Shown(b.fields[p])) in pairs
  {
    hide PairsSet, Shown, NameOf;
    PairsSetFields(b.fields, 0);
  }

  lemma MediaIsClean(media: string)
    requires KnownMedia(media)
    ensures CleanMedia(media)
  {
  }

  lemma FieldMapRebuilt(b: Builder, pairs: seq<Pair>)
    requires forall i :: 0 <= i < |pairs| ==> IsField(b.fields, pairs[i])
    requires forall p: Param :: p in b.fields ==> Pair(NameOf(p), Shown(b.fields[p])) in pairs
    ensures IsFieldMap(b, FirstWins(map[], pairs))
  {
    hide NameOf, Shown, FirstWins, IsField;
    SameKeySameValue(b, pairs);
    forall p: Param | p in b.fields
      ensures NameOf(p) in FirstWins(map[], pairs) && FirstWins(map[], pairs)[NameOf(p)] == Shown(b.fields[p])
    {
      PairIsKept(pairs, Pair(NameOf(p), Shown(b.fields[p])));
    }
    forall k | k in FirstWins(map[], pairs)
      ensures exists p: Param :: p in b.fields && NameOf(p) == k
    {
      var i := KeyIsFromPair(pairs, k);
      FieldOfPair(b, pairs[i]);
    }
  }

  lemma FieldOfPair(b: Builder, pair: Pair)
    requires IsField(b.fields, pair)
    ensures exists p: Param :: p in b.fields && NameOf(p) == pair.key
  {
    var p: Param :| IsPairOf(b.fields, p, pair);
    assert p in b.fields && NameOf(p) == pair.key;
  }

  lemma PairIsKept(pairs: seq<Pair>, pair: Pair)
    requires pair in pairs
    requires forall i, j :: 0 <= i < |pairs| && 0 <= j < |pairs| && pairs[i].key == pairs[j].key ==>
             pairs[i] == pairs[j]
    ensures pair.key in FirstWins(map[], pairs) && FirstWins(map[], pairs)[pair.key] == pair.value
  {
    hide FirstWins;
    FirstValueStays(map[], pairs);
    var i := FirstOf(pairs, pair);
  }

  lemma KeyIsFromPair(pairs: seq<Pair>, k: string) returns (i: nat)
    requires k in FirstWins(map[], pairs)
    ensures i < |pairs| && pairs[i].key == k
  {
    hide FirstWins;
    FirstValueStays(map[], pairs);
    i :| 0 <= i < |pairs| && pairs[i].key == k;
  }

  lemma SameKeySameValue(b: Builder, pairs: seq<Pair>)
    requires forall i :: 0 <= i < |pairs| ==>
               IsField(b.fields, pairs[i])
    ensures forall i, j :: 0 <= i < |pairs| && 0 <= j < |pairs| && pairs[i].key == pairs[j].key ==> pairs[i] == pairs[j]
  {
    NamesAreKeys();
    hide NameOf, Shown;
    forall i, j | 0 <= i < |pairs| && 0 <= j < |pairs| && pairs[i].key == pairs[j].key
      ensures pairs[i] == pairs[j]
    {
      assert IsField(b.fields, pairs[i]) && IsField(b.fields, pairs[j]);
      var p: Param :| IsPairOf(b.fields, p, pairs[i]);
      var q: Param :| IsPairOf(b.fields, q, pairs[j]);
    }
  }

  /** The first pair with the key of a pair that is there. */
  lemma FirstOf(pairs: seq<Pair>, pair: Pair) returns (i: nat)
    requires pair in pairs
    requires forall i, j :: 0 <= i < |pairs| && 0 <= j < |pairs| && pairs[i].key == pairs[j].key ==>
             pairs[i] == pairs[j]
    ensures i < |pairs| && pairs[i] == pair && forall j :: 0 <= j < i ==> pairs[j].key != pair.key
  {
    i := 0;
    while pairs[i].key != pair.key
      invariant i < |pairs| && forall j :: 0 <= j < i ==> pairs[j].key != pair.key
      decreases |pairs| - i
    {
      i := i + 1;
    }
    var k :| 0 <= k < |pairs| && pairs[k] == pair;
    assert pairs[i].key == pairs[k].key;
  }

  predicate PowerOfTwo(n: nat) {
    n == 1 || (n > 0 && n % 2 == 0 && PowerOfTwo(n / 2))
  }

  /** checkTermLength. */
  predicate ValidTermLength(termLength: int) {
    0x1_0000 <= termLength <= 0x4000_0000 && PowerOfTwo(termLength)
  }

  function TwoTo(k: nat): nat { if k == 0 then 1 else 2 * TwoTo(k - 1) }

  lemma {:induction false} PowerOfTwoIff(n: nat) returns (k: nat)
    ensures PowerOfTwo(n) ==> n == TwoTo(k)
    ensures forall j :: n == TwoTo(j) ==> PowerOfTwo(n)
  {
    k := 0;
    if PowerOfTwo(n) && n > 1 {
      k := PowerOfTwoIff(n / 2);
      k := k + 1;
    }
    forall j | n == TwoTo(j)
      ensures PowerOfTwo(n)
    {
      TwoToIsPower(j);
    }
  }

  lemma {:induction false} TwoToIsPower(k: nat)
    ensures PowerOfTwo(TwoTo(k))
  {
    if k > 0 {
      TwoToIsPower(k - 1);
      assert TwoTo(k) / 2 == TwoTo(k - 1);
    }
  }

  /** Two to higher powers is more. */
  lemma {:induction false} TwoToGrows(j: nat, k: nat)
    requires j < k
    ensures TwoTo(j) < TwoTo(k)
    decreases k
  {
    if j < k - 1 {
      TwoToGrows(j, k - 1);
    }
    TwoToPositive(k - 1);
  }

  lemma {:induction false} TwoToPositive(k: nat)
    ensures TwoTo(k) > 0
  {
    if k > 0 {
      TwoToPositive(k - 1);
    }
  }

  lemma TwoToBounds()
    ensures TwoTo(16) == 65536 && TwoTo(30) == 1073741824
  {
    assert TwoTo(4) == 16 && TwoTo(8) == 256 && TwoTo(12) == 4096;
    assert TwoTo(16) == 65536 && TwoTo(20) == 1048576 && TwoTo(24) == 16777216 && TwoTo(28) == 268435456;
  }

  /** The term lengths: the powers of two from 64 KiB to 1 GiB. */
  lemma ValidTermLengths(termLength: int)
    ensures ValidTermLength(termLength) <==> exists k :: 16 <= k <= 30 && termLength == TwoTo(k)
  {
    TwoToBounds();
    if ValidTermLength(termLength) {
      var k := PowerOfTwoIff(termLength);
      if k < 16 {
        TwoToGrows(k, 16);
      }
      if k > 30 {
        TwoToGrows(30, k);
      }
    }
    forall k | 16 <= k <= 30 && termLength == TwoTo(k)
      ensures ValidTermLength(termLength)
    {
      TwoToIsPower(k);
      if k > 16 {
        TwoToGrows(16, k);
      }
      if k < 30 {
        TwoToGrows(k, 30);
      }
    }
  }

  lemma PowerOfTwoAligned(n: nat)
    requires n >= FRAME_ALIGNMENT && PowerOfTwo(n)
    ensures n % FRAME_ALIGNMENT == 0
  {
    assert PowerOfTwo(n / 2) && PowerOfTwo(n / 2 / 2);
    assert PowerOfTwo(n / 2 / 2 / 2) && PowerOfTwo(n / 2 / 2 / 2 / 2);
    assert n / 2 / 2 / 2 / 2 == 1 || n / 2 / 2 / 2 / 2 % 2 == 0;
  }

  const INT32_MAX := 0x7FFF_FFFF

  /** initialPosition: the position is stored as term length, initial term id, term id and term offset; with a term
      length that is a power of two, shift and mask are division and remainder. */
  method InitialPosition(b: Builder, position: int, initialTermId: int, termLength: int)
      returns (ok: bool, after: Builder)
    ensures ok <==> position >= 0 && position % FRAME_ALIGNMENT == 0 && ValidTermLength(termLength)
    ensures !ok ==> after == b
    ensures ok ==>
              && after.prefix == b.prefix && after.media == b.media
              && after.fields.Keys == b.fields.Keys + {TermLength, InitialTermId, TermId, TermOffset}
              && (forall p: Param :: p in b.fields && p !in {TermLength, InitialTermId, TermId, TermOffset} ==>
                  after.fields[p] == b.fields[p])
              && after.fields[TermLength] == Number(termLength) && after.fields[InitialTermId] == Number(initialTermId)
              && after.fields[TermId].Number? && after.fields[TermOffset].Number?
              && (after.fields[TermId].n - initialTermId) * termLength + after.fields[TermOffset].n == position
              && 0 <= after.fields[TermOffset].n < termLength && after.fields[TermOffset].n % FRAME_ALIGNMENT == 0
  {
    if position < 0 || position % FRAME_ALIGNMENT != 0 || !ValidTermLength(termLength) {
      return false, b;
    }
    var termId, termOffset := position / termLength + initialTermId, position % termLength;
    OffsetAligned(position, termLength);
    after := b.(fields := b.fields[TermLength := Number(termLength)][InitialTermId := Number(initialTermId)]
                                  [TermId := Number(termId)][TermOffset := Number(termOffset)]);
    return true, after;
  }

  lemma OffsetAligned(position: nat, termLength: nat)
    requires position % FRAME_ALIGNMENT == 0 && ValidTermLength(termLength)
    ensures position % termLength % FRAME_ALIGNMENT == 0
    ensures position / termLength * termLength + position % termLength == position
  {
    PowerOfTwoAligned(termLength);
    hide PowerOfTwo;
    var q, r := Divided(position, termLength);
    MultipleAligned(q, termLength);
    DifferenceAligned(position, q * termLength);
  }

  lemma Divided(a: nat, n: nat) returns (q: nat, r: nat)
    requires n > 0
    ensures q == a / n && r == a % n && q * n + r == a && q * n == a / n * n
  {
    q, r := a / n, a % n;
  }

  lemma MultipleAligned(q: nat, n: nat)
    requires n % FRAME_ALIGNMENT == 0
    ensures (q * n) % FRAME_ALIGNMENT == 0
  {
    var u := n / FRAME_ALIGNMENT;
    assert q * n == (q * u) * FRAME_ALIGNMENT;
  }

  lemma DifferenceAligned(a: nat, b: nat)
    requires a % FRAME_ALIGNMENT == 0 && b % FRAME_ALIGNMENT == 0 && b <= a
    ensures (a - b) % FRAME_ALIGNMENT == 0
  {
  }

  /** The stored term id is a 32-bit term id exactly when the terms that the position is past do not run over the
      greatest one: the sum is not wrapped, unlike the term ids of a publication. */
  lemma TermIdInRange(position: nat, initialTermId: int, termLength: nat)
    requires ValidTermLength(termLength) && -INT32_MAX - 1 <= initialTermId <= INT32_MAX
    ensures position / termLength + initialTermId <= INT32_MAX <==>
            position < (INT32_MAX - initialTermId + 1) * termLength
  {
    DivisionBound(position, termLength, INT32_MAX - initialTermId + 1);
  }

  lemma DivisionBound(n: nat, d: nat, bound: nat)
    requires d > 0
    ensures n / d < bound <==> n < bound * d
  {
    var q := n / d;
    assert n == q * d + n % d;
    if q < bound {
      MultipleGap(bound, q, d);
    } else if q > bound {
      MultipleGap(q, bound, d);
    }
  }
}
