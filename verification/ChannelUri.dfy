/**
 Channel URIs: the three-state parser, the printer and the operations on parameters (ChannelUri.h).
 */
module ChannelUris {

  const SPY_QUALIFIER := "aeron-spy"
  const SPY_PREFIX := "aeron-spy:"
  const AERON_PREFIX := "aeron:"
  const IPC_MEDIA := "ipc"
  const UDP_MEDIA := "udp"
  const SESSION_ID := "session-id"

  datatype Uri = Uri(prefix: string, media: string, params: map<string, string>)

  datatype ParseError = BadScheme | BadMedia | EmptyKey | BadKeyEnd | UnknownMedia | NoMoreInput

  datatype Parsed = Ok(uri: Uri) | Err(error: ParseError)

  datatype Mode = MEDIA | PARAMS_KEY | PARAMS_VALUE

  datatype Pair = Pair(key: string, value: string)

  /** std::unordered_map::emplace: an entry that is there stays. */
  function Emplace(params: map<string, string>, key: string, value: string): map<string, string> {
    if key in params then params else params[key := value]
  }

  /** The parser from some point of its input on. */
  function Scan(mode: Mode, prefix: string, builder: string, key: string, media: string, params: map<string, string>,
                rest: string): Parsed
    decreases |rest|
  {
    if rest == "" then
      match mode
      case MEDIA => if builder == IPC_MEDIA || builder == UDP_MEDIA then Ok(Uri(prefix, builder, params))
        else Err(UnknownMedia)
      case PARAMS_VALUE => Ok(Uri(prefix, media, Emplace(params, key, builder)))
      case PARAMS_KEY => Err(NoMoreInput)
    else
      var c, more := rest[0], rest[1..];
      match mode
      case MEDIA =>
        if c == '?' then Scan(PARAMS_KEY, prefix, "", key, builder, params, more)
        else if c == ':' || c == '|' || c == '=' then Err(BadMedia)
        else Scan(MEDIA, prefix, builder + [c], key, media, params, more)
      case PARAMS_KEY =>
        if c == '=' then
          if builder == "" then Err(EmptyKey) else Scan(PARAMS_VALUE, prefix, "", builder, media, params, more)
        else if c == '|' then Err(BadKeyEnd)
        else Scan(PARAMS_KEY, prefix, builder + [c], key, media, params, more)
      case PARAMS_VALUE =>
        if c == '|' then Scan(PARAMS_KEY, prefix, "", key, media, Emplace(params, key, builder), more)
        else Scan(PARAMS_VALUE, prefix, builder + [c], key, media, params, more)
  }

  predicate StartsWith(s: string, position: nat, prefix: string) {
    position <= |s| && prefix <= s[position..]
  }

  function Parse(uri: string): Parsed {
    var spy := StartsWith(uri, 0, SPY_PREFIX);
    var prefix := if spy then SPY_QUALIFIER else "";
    var position := if spy then |SPY_PREFIX| else 0;
    if !StartsWith(uri, position, AERON_PREFIX) then Err(BadScheme)
    else Scan(MEDIA, prefix, "", "", "", map[], uri[position + |AERON_PREFIX|..])
  }

  /** parse. */
  method ParseUri(uri: string) returns (r: Parsed)
    ensures r == Parse(uri)
  {
    var position, prefix := 0, "";
    if StartsWith(uri, 0, SPY_PREFIX) {
      prefix, position := SPY_QUALIFIER, |SPY_PREFIX|;
    }
    if !StartsWith(uri, position, AERON_PREFIX) {
      return Err(BadScheme);
    }
    position := position + |AERON_PREFIX|;
    var builder, media, key, mode := "", "", "", MEDIA;
    var params: map<string, string> := map[];
    for i := position to |uri|
      invariant Scan(mode, prefix, builder, key, media, params, uri[i..]) == Parse(uri)
    {
      var c := uri[i];
      assert uri[i..][0] == c && uri[i..][1..] == uri[i + 1..];
      match mode {
        case MEDIA =>
          if c == '?' {
            media, builder, mode := builder, "", PARAMS_KEY;
          } else if c == ':' || c == '|' || c == '=' {
            return Err(BadMedia);
          } else {
            builder := builder + [c];
          }
        case PARAMS_KEY =>
          if c == '=' {
            if |builder| == 0 {
              return Err(EmptyKey);
            }
            key, builder, mode := builder, "", PARAMS_VALUE;
          } else {
            if c == '|' {
              return Err(BadKeyEnd);
            }
            builder := builder + [c];
          }
        case PARAMS_VALUE =>
          if c == '|' {
            params, builder, mode := Emplace(params, key, builder), "", PARAMS_KEY;
          } else {
            builder := builder + [c];
          }
      }
    }
    match mode {
      case MEDIA =>
        if builder != IPC_MEDIA && builder != UDP_MEDIA {
          return Err(UnknownMedia);
        }
        return Ok(Uri(prefix, builder, params));
      case PARAMS_VALUE => return Ok(Uri(prefix, media, Emplace(params, key, builder)));
      case PARAMS_KEY => return Err(NoMoreInput);
    }
  }

  /** key=value pairs with '|' between them. */
  function Joined(pairs: seq<Pair>): string {
    if pairs == [] then ""
    else pairs[0].key + "=" + pairs[0].value + if |pairs| == 1 then "" else "|" + Joined(pairs[1..])
  }

  /** The pairs in the order in which the map is iterated. */
  function PairsOf(params: map<string, string>, order: seq<string>): (pairs: seq<Pair>)
    requires forall k :: k in order ==> k in params
    ensures |pairs| == |order|
  {
    seq(|order|, i requires 0 <= i < |order| => Pair(order[i], params[order[i]]))
  }

  ghost predicate Lists(order: seq<string>, params: map<string, string>) {
    (forall k :: k in order <==> k in params) && forall i, j :: 0 <= i < j < |order| ==> order[i] != order[j]
  }

  function PrintedPrefix(prefix: string): string {
    if prefix == "" then "" else prefix + if prefix[|prefix| - 1] == ':' then "" else ":"
  }

  function Composed(prefix: string, media: string, pairs: seq<Pair>): string {
    PrintedPrefix(prefix) + AERON_PREFIX + media + if pairs == [] then "" else "?" + Joined(pairs)
  }

  function Printed(u: Uri, order: seq<string>): string
    requires forall k :: k in order ==> k in u.params
  {
    Composed(u.prefix, u.media, PairsOf(u.params, order))
  }

  lemma {:induction false} JoinedOneMore(pairs: seq<Pair>, p: Pair)
    ensures Joined(pairs + [p]) == (if pairs == [] then "" else Joined(pairs) + "|") + p.key + "=" + p.value
    decreases |pairs|
  {
    if pairs == [] {
      assert pairs + [p] == [p];
    } else {
      assert (pairs + [p])[1..] == pairs[1..] + [p] && (pairs + [p])[0] == pairs[0];
      JoinedOneMore(pairs[1..], p);
      var front := pairs[0].key + "=" + pairs[0].value;
      if |pairs| == 1 {
        assert Joined(pairs) == front;
      } else {
        assert Joined(pairs) == front + ("|" + Joined(pairs[1..]));
      }
    }
  }

  /** toString: every pair is written with a '|' behind it, and the last one is taken off again. */
  method ToString(u: Uri, order: seq<string>) returns (sb: string)
    requires Lists(order, u.params)
    ensures sb == Printed(u, order)
  {
    hide Joined;
    ListsNothing(order, u.params);
    sb := "";
    if |u.prefix| != 0 {
      sb := sb + u.prefix;
      if u.prefix[|u.prefix| - 1] != ':' {
        sb := sb + ":";
      }
    }
    sb := sb + AERON_PREFIX + u.media;
    if u.params != map[] {
      sb := sb + "?";
      sb := AppendPairs(sb, u.params, order);
      sb := sb[..|sb| - 1];
    }
  }

  /** The loop of toString. */
  method AppendPairs(sb0: string, params: map<string, string>, order: seq<string>) returns (sb: string)
    requires order != [] && forall k :: k in order ==> k in params
    ensures sb == sb0 + Joined(PairsOf(params, order)) + "|"
  {
    hide Joined;
    sb := sb0;
    ghost var pairs := PairsOf(params, order);
    for i := 0 to |order|
      invariant sb == sb0 + (if i == 0 then "" else Joined(pairs[..i]) + "|")
    {
      AppendOne(sb0, pairs, i);
      sb := sb + order[i];
      sb := sb + "=";
      sb := sb + params[order[i]];
      sb := sb + "|";
    }
    assert pairs[..|order|] == pairs;
    assert sb0 + (Joined(pairs) + "|") == sb0 + Joined(pairs) + "|";
  }

  lemma AppendOne(sb0: string, pairs: seq<Pair>, i: nat)
    requires i < |pairs|
    ensures sb0 + (if i == 0 then "" else Joined(pairs[..i]) + "|") + pairs[i].key + "=" + pairs[i].value + "|"
            == sb0 + (Joined(pairs[..i + 1]) + "|")
  {
    hide Joined;
    assert pairs[..i + 1] == pairs[..i] + [pairs[i]];
    JoinedOneMore(pairs[..i], pairs[i]);
  }

  lemma ListsNothing(order: seq<string>, params: map<string, string>)
    requires Lists(order, params)
    ensures order == [] <==> params == map[]
  {
    assert order != [] ==> order[0] in params;
    assert order == [] ==> params.Keys == {};
  }

  predicate CleanMedia(s: string) {
    forall i :: 0 <= i < |s| ==> s[i] != '?' && s[i] != ':' && s[i] != '|' && s[i] != '='
  }

  predicate CleanKey(s: string) { forall i :: 0 <= i < |s| ==> s[i] != '=' && s[i] != '|' }

  predicate CleanValue(s: string) { forall i :: 0 <= i < |s| ==> s[i] != '|' }

  predicate WellFormedPair(p: Pair) { p.key != "" && CleanKey(p.key) && CleanValue(p.value) }

  predicate KnownMedia(media: string) { media == IPC_MEDIA || media == UDP_MEDIA }

  ghost predicate WellFormedParams(params: map<string, string>) {
    forall k :: k in params ==> WellFormedPair(Pair(k, params[k]))
  }

  /** URIs that a parser can return. */
  ghost predicate WellFormed(u: Uri) {
    && (u.prefix == "" || u.prefix == SPY_QUALIFIER) && CleanMedia(u.media) && WellFormedParams(u.params)
    && (u.params == map[] ==> KnownMedia(u.media))
  }

  /** Adding pairs one after the other: of a key that occurs twice the first value stays. */
  function FirstWins(params: map<string, string>, pairs: seq<Pair>): map<string, string>
    decreases |pairs|
  {
    if pairs == [] then params else FirstWins(Emplace(params, pairs[0].key, pairs[0].value), pairs[1..])
  }

  lemma {:induction false} FirstValueStays(params: map<string, string>, pairs: seq<Pair>)
    ensures forall k :: k in params ==> k in FirstWins(params, pairs) && FirstWins(params, pairs)[k] == params[k]
    ensures forall k :: k in FirstWins(params, pairs) ==>
            k in params || exists i :: 0 <= i < |pairs| && pairs[i].key == k
    ensures forall i ::
              && 0 <= i < |pairs| && pairs[i].key !in params
              && (forall j :: 0 <= j < i ==> pairs[j].key != pairs[i].key) ==>
              pairs[i].key in FirstWins(params, pairs) && FirstWins(params, pairs)[pairs[i].key] == pairs[i].value
    decreases |pairs|
  {
    if pairs != [] {
      var next := Emplace(params, pairs[0].key, pairs[0].value);
      FirstValueStays(next, pairs[1..]);
      forall i | 0 <= i < |pairs| && pairs[i].key !in params
        && (forall j :: 0 <= j < i ==> pairs[j].key != pairs[i].key)
        ensures pairs[i].key in FirstWins(params, pairs) && FirstWins(params, pairs)[pairs[i].key] == pairs[i].value
      {
        if i > 0 {
          assert pairs[1..][i - 1] == pairs[i];
          assert forall j :: 0 <= j < i - 1 ==> pairs[1..][j].key == pairs[j + 1].key;
        }
      }
      forall k | k in FirstWins(params, pairs) && k !in params
        ensures exists i :: 0 <= i < |pairs| && pairs[i].key == k
      {
        if k in next {
          assert pairs[0].key == k;
        } else {
          var i :| 0 <= i < |pairs[1..]| && pairs[1..][i].key == k;
          assert pairs[i + 1].key == k;
        }
      }
    }
  }

  lemma {:induction false} MediaRun(prefix: string, builder: string, media: string, params: map<string, string>,
                                    rest: string)
    requires CleanMedia(media)
    ensures Scan(MEDIA, prefix, builder, "", "", params, media + rest)
            == Scan(MEDIA, prefix, builder + media, "", "", params, rest)
    decreases |media|
  {
    if media == "" {
      assert media + rest == rest && builder + media == builder;
    } else {
      assert (media + rest)[0] == media[0] && (media + rest)[1..] == media[1..] + rest;
      MediaRun(prefix, builder + [media[0]], media[1..], params, rest);
      assert builder + [media[0]] + media[1..] == builder + media;
    }
  }

  lemma {:induction false} KeyRun(prefix: string, builder: string, previous: string, media: string,
                                  params: map<string, string>, key: string, rest: string)
    requires CleanKey(key)
    ensures Scan(PARAMS_KEY, prefix, builder, previous, media, params, key + rest)
            == Scan(PARAMS_KEY, prefix, builder + key, previous, media, params, rest)
    decreases |key|
  {
    if key == "" {
      assert key + rest == rest && builder + key == builder;
    } else {
      assert (key + rest)[0] == key[0] && (key + rest)[1..] == key[1..] + rest;
      KeyRun(prefix, builder + [key[0]], previous, media, params, key[1..], rest);
      assert builder + [key[0]] + key[1..] == builder + key;
    }
  }

  lemma {:induction false} ValueRun(prefix: string, builder: string, key: string, media: string,
                                    params: map<string, string>, value: string, rest: string)
    requires CleanValue(value)
    ensures Scan(PARAMS_VALUE, prefix, builder, key, media, params, value + rest)
            == Scan(PARAMS_VALUE, prefix, builder + value, key, media, params, rest)
    decreases |value|
  {
    if value == "" {
      assert value + rest == rest && builder + value == builder;
    } else {
      assert (value + rest)[0] == value[0] && (value + rest)[1..] == value[1..] + rest;
      ValueRun(prefix, builder + [value[0]], key, media, params, value[1..], rest);
      assert builder + [value[0]] + value[1..] == builder + value;
    }
  }

  /** One pair, up to where its value begins. */
  lemma PairRun(prefix: string, previous: string, media: string, params: map<string, string>, p: Pair, rest: string)
    requires WellFormedPair(p)
    ensures Scan(PARAMS_KEY, prefix, "", previous, media, params, p.key + "=" + p.value + rest)
            == Scan(PARAMS_VALUE, prefix, p.value, p.key, media, params, rest)
  {
    var tail := "=" + p.value + rest;
    assert p.key + "=" + p.value + rest == p.key + tail;
    KeyRun(prefix, "", previous, media, params, p.key, tail);
    assert "" + p.key == p.key;
    assert tail[0] == '=' && tail[1..] == p.value + rest;
    ValueRun(prefix, "", p.key, media, params, p.value, rest);
    assert "" + p.value == p.value;
  }

  lemma {:induction false} PairsRun(prefix: string, previous: string, media: string, params: map<string, string>,
                                    pairs: seq<Pair>)
    requires pairs != [] && forall i :: 0 <= i < |pairs| ==> WellFormedPair(pairs[i])
    ensures Scan(PARAMS_KEY, prefix, "", previous, media, params, Joined(pairs))
            == Ok(Uri(prefix, media, FirstWins(params, pairs)))
    decreases |pairs|
  {
    var p, next := pairs[0], Emplace(params, pairs[0].key, pairs[0].value);
    if |pairs| == 1 {
      assert pairs[1..] == [];
      assert Joined(pairs) == p.key + "=" + p.value + "";
      PairRun(prefix, previous, media, params, p, "");
    } else {
      var rest := "|" + Joined(pairs[1..]);
      assert Joined(pairs) == p.key + "=" + p.value + rest;
      PairRun(prefix, previous, media, params, p, rest);
      assert rest[0] == '|' && rest[1..] == Joined(pairs[1..]);
      PairsRun(prefix, p.key, media, next, pairs[1..]);
    }
  }

  /** What a parse of a well-formed text finds. */
  ghost predicate Grammatical(prefix: string, media: string, pairs: seq<Pair>) {
    && (prefix == "" || prefix == SPY_QUALIFIER) && CleanMedia(media) && (pairs == [] ==> KnownMedia(media))
    && forall i :: 0 <= i < |pairs| ==> WellFormedPair(pairs[i])
  }

  lemma ComposedParses(prefix: string, media: string, pairs: seq<Pair>)
    requires Grammatical(prefix, media, pairs)
    ensures Parse(Composed(prefix, media, pairs)) == Ok(Uri(prefix, media, FirstWins(map[], pairs)))
  {
    var text := media + if pairs == [] then "" else "?" + Joined(pairs);
    var s := Composed(prefix, media, pairs);
    assert s == PrintedPrefix(prefix) + AERON_PREFIX + text;
    SchemeParses(prefix, text);
    if pairs == [] {
      MediaRun(prefix, "", media, map[], "");
      assert media + "" == media && "" + media == media;
    } else {
      var rest := "?" + Joined(pairs);
      MediaRun(prefix, "", media, map[], rest);
      assert "" + media == media && rest[0] == '?' && rest[1..] == Joined(pairs);
      PairsRun(prefix, "", media, map[], pairs);
    }
  }

  lemma SchemeParses(prefix: string, text: string)
    requires prefix == "" || prefix == SPY_QUALIFIER
    ensures Parse(PrintedPrefix(prefix) + AERON_PREFIX + text) == Scan(MEDIA, prefix, "", "", "", map[], text)
  {
    hide Scan;
    if prefix == "" {
      assert PrintedPrefix(prefix) + AERON_PREFIX + text == AERON_PREFIX + text;
      PlainScheme(text);
    } else {
      assert PrintedPrefix(prefix) == SPY_PREFIX;
      assert SPY_PREFIX + AERON_PREFIX + text == SPY_PREFIX + (AERON_PREFIX + text);
      SpyScheme(text);
    }
  }

  lemma PlainScheme(text: string)
    ensures Parse(AERON_PREFIX + text) == Scan(MEDIA, "", "", "", "", map[], text)
  {
    hide Scan;
    var s := AERON_PREFIX + text;
    assert s[5] != SPY_PREFIX[5];
    assert s[0..] == s && !(SPY_PREFIX <= s) && s[|AERON_PREFIX|..] == text;
  }

  lemma SpyScheme(text: string)
    ensures Parse(SPY_PREFIX + (AERON_PREFIX + text)) == Scan(MEDIA, SPY_QUALIFIER, "", "", "", map[], text)
  {
    hide Scan;
    var s := SPY_PREFIX + (AERON_PREFIX + text);
    assert s[0..] == s && s[|SPY_PREFIX|..] == AERON_PREFIX + text;
    assert s[|SPY_PREFIX| + |AERON_PREFIX|..] == text;
  }

  /** Where the parser stands, in terms of what it has accepted so far. */
  predicate Standing(mode: Mode, builder: string, key: string, media: string) {
    match mode
    case MEDIA => CleanMedia(builder)
    case PARAMS_KEY => CleanMedia(media) && CleanKey(builder)
    case PARAMS_VALUE => CleanMedia(media) && key != "" && CleanKey(key) && CleanValue(builder)
  }

  /** The input from the start of the current media or pair. */
  function Current(mode: Mode, builder: string, key: string, rest: string): string {
    match mode
    case MEDIA => builder + rest
    case PARAMS_KEY => builder + rest
    case PARAMS_VALUE => key + "=" + builder + rest
  }

  lemma JoinedFirst(p: Pair, more: seq<Pair>)
    ensures Joined([p] + more) == p.key + "=" + p.value + if more == [] then "" else "|" + Joined(more)
  {
    assert ([p] + more)[1..] == more;
  }

  /** An accepted input is media and pairs as the grammar has them. */
  lemma {:induction false} AcceptedSplits(mode: Mode, prefix: string, builder: string, key: string, media: string,
                                         params: map<string, string>, rest: string)
    returns (m: string, pairs: seq<Pair>)
    requires Standing(mode, builder, key, media) && Scan(mode, prefix, builder, key, media, params, rest).Ok?
    ensures CleanMedia(m) && forall i :: 0 <= i < |pairs| ==> WellFormedPair(pairs[i])
    ensures mode != MEDIA ==> m == media && pairs != [] && Current(mode, builder, key, rest) == Joined(pairs)
    ensures mode == MEDIA ==> (pairs == [] ==> KnownMedia(m))
                              && Current(mode, builder, key, rest) == m + if pairs == [] then ""
                              else "?" + Joined(pairs)
    decreases |rest|
  {
    hide Joined;
    if rest == "" {
      if mode == MEDIA {
        m, pairs := builder, [];
        assert builder + rest == builder + "";
      } else {
        m, pairs := media, [Pair(key, builder)] + [];
        JoinedFirst(Pair(key, builder), []);
        assert key + "=" + builder + rest == key + "=" + builder + "";
      }
    } else {
      var c, more := rest[0], rest[1..];
      assert rest == [c] + more;
      if mode == MEDIA && c == '?' {
        m, pairs := AcceptedSplits(PARAMS_KEY, prefix, "", key, builder, params, more);
        assert "" + more == more;
      } else if mode == PARAMS_KEY && c == '=' {
        m, pairs := AcceptedSplits(PARAMS_VALUE, prefix, "", builder, media, params, more);
        assert builder + "=" + "" + more == builder + rest;
      } else if mode == PARAMS_VALUE && c == '|' {
        var tail;
        m, tail := AcceptedSplits(PARAMS_KEY, prefix, "", key, media, Emplace(params, key, builder), more);
        pairs := [Pair(key, builder)] + tail;
        JoinedFirst(Pair(key, builder), tail);
        assert "" + more == more;
        assert key + "=" + builder + rest == key + "=" + builder + ("|" + more);
      } else {
        m, pairs := AcceptedSplits(mode, prefix, builder + [c], key, media, params, more);
        assert (builder + [c]) + more == builder + rest;
        assert key + "=" + (builder + [c]) + more == key + "=" + builder + rest;
      }
    }
  }

  /** The parser accepts exactly the texts of the grammar, with the first value of every key. */
  lemma AcceptedIffGrammatical(s: string)
    ensures Parse(s).Ok? <==>
            exists prefix, media, pairs :: Grammatical(prefix, media, pairs) && s == Composed(prefix, media, pairs)
    ensures forall prefix, media, pairs :: Grammatical(prefix, media, pairs) && s == Composed(prefix, media, pairs) ==>
              Parse(s) == Ok(Uri(prefix, media, FirstWins(map[], pairs)))
  {
    forall prefix, media, pairs | Grammatical(prefix, media, pairs) && s == Composed(prefix, media, pairs)
      ensures Parse(s) == Ok(Uri(prefix, media, FirstWins(map[], pairs)))
    {
      ComposedParses(prefix, media, pairs);
    }
    if Parse(s).Ok? {
      var prefix, media, pairs := Witness(s);
    }
  }

  lemma Witness(s: string) returns (prefix: string, media: string, pairs: seq<Pair>)
    requires Parse(s).Ok?
    ensures Grammatical(prefix, media, pairs) && s == Composed(prefix, media, pairs)
  {
    hide Scan, Joined;
    var text;
    prefix, text := SchemeOf(s);
    media, pairs := AcceptedSplits(MEDIA, prefix, "", "", "", map[], text);
    assert "" + text == text;
    if pairs == [] {
      assert media + "" == media;
      assert PrintedPrefix(prefix) + AERON_PREFIX + media + "" == PrintedPrefix(prefix) + AERON_PREFIX + media;
    } else {
      assert PrintedPrefix(prefix) + AERON_PREFIX + media + ("?" + Joined(pairs))
          == PrintedPrefix(prefix) + AERON_PREFIX + (media + ("?" + Joined(pairs)));
    }
  }

  lemma SchemeOf(s: string) returns (prefix: string, text: string)
    requires Parse(s).Ok?
    ensures (prefix == "" || prefix == SPY_QUALIFIER) && s == PrintedPrefix(prefix) + AERON_PREFIX + text
    ensures Parse(s) == Scan(MEDIA, prefix, "", "", "", map[], text)
  {
    hide Scan;
    var spy := StartsWith(s, 0, SPY_PREFIX);
    prefix := if spy then SPY_QUALIFIER else "";
    text := s[(if spy then |SPY_PREFIX| else 0) + |AERON_PREFIX|..];
    assert s[0..] == s;
    if spy {
      assert s == SPY_PREFIX + s[|SPY_PREFIX|..];
      assert s[|SPY_PREFIX|..] == AERON_PREFIX + text;
    } else {
      assert s == AERON_PREFIX + text;
    }
  }

  lemma {:induction false} FirstWinsWellFormed(params: map<string, string>, pairs: seq<Pair>)
    requires WellFormedParams(params) && forall i :: 0 <= i < |pairs| ==> WellFormedPair(pairs[i])
    ensures WellFormedParams(FirstWins(params, pairs))
    ensures pairs != [] || params != map[] ==> FirstWins(params, pairs) != map[]
    decreases |pairs|
  {
    if pairs != [] {
      var next := Emplace(params, pairs[0].key, pairs[0].value);
      assert pairs[0].key in next;
      FirstWinsWellFormed(next, pairs[1..]);
    }
  }

  /** Whatever the parser returns is well formed. */
  lemma ParsedIsWellFormed(s: string)
    ensures Parse(s).Ok? ==> WellFormed(Parse(s).uri)
  {
    if Parse(s).Ok? {
      var prefix, media, pairs := Witness(s);
      ComposedParses(prefix, media, pairs);
      FirstWinsWellFormed(map[], pairs);
    }
  }

  /** Parameters listed in any order make up the same map. */
  lemma {:induction false} ListingRebuilds(params: map<string, string>, order: seq<string>, done: map<string, string>)
    requires (forall k :: k in order ==> k in params) && (forall k :: k in done ==> k in params && done[k] == params[k])
    ensures var r := FirstWins(done, PairsOf(params, order));
            (forall k :: k in r <==> k in done || k in order) && forall k :: k in r ==> k in params && r[k] == params[k]
    decreases |order|
  {
    if order != [] {
      assert PairsOf(params, order)[1..] == PairsOf(params, order[1..]);
      ListingRebuilds(params, order[1..], Emplace(done, order[0], params[order[0]]));
      assert forall k :: k in order <==> k == order[0] || k in order[1..];
    }
  }

  /** Printing and parsing give the URI back exactly when it is well formed, whatever the order of iteration. */
  lemma PrintParse(u: Uri, order: seq<string>)
    requires Lists(order, u.params)
    ensures Parse(Printed(u, order)) == Ok(u) <==> WellFormed(u)
  {
    if WellFormed(u) {
      var pairs := PairsOf(u.params, order);
      ListsNothing(order, u.params);
      ComposedParses(u.prefix, u.media, pairs);
      ListingRebuilds(u.params, order, map[]);
      assert FirstWins(map[], pairs) == u.params;
    }
    ParsedIsWellFormed(Printed(u, order));
  }

  /** Re-printing and re-parsing an accepted text gives what the text itself parses to. */
  lemma ReparseStable(s: string, order: seq<string>)
    requires Parse(s).Ok? && Lists(order, Parse(s).uri.params)
    ensures Parse(Printed(Parse(s).uri, order)) == Parse(s)
  {
    ParsedIsWellFormed(s);
    PrintParse(Parse(s).uri, order);
  }

  /** Decimal digits, as std::to_string writes them. */
  function Decimal(n: nat): (s: string)
    ensures s != "" && forall i :: 0 <= i < |s| ==> '0' <= s[i] <= '9'
  {
    var digit := [(n % 10) as char + '0'];
    if n < 10 then digit else Decimal(n / 10) + digit
  }

  function ToDecimal(n: int): (s: string)
    ensures CleanValue(s) && s != ""
  {
    if n < 0 then "-" + Decimal(-n) else Decimal(n)
  }

  predicate AreDigits(s: string) {
    s != "" && forall i :: 0 <= i < |s| ==> '0' <= s[i] <= '9'
  }

  /** The number that digits stand for. */
  function DigitsValue(s: string): nat
    requires forall i :: 0 <= i < |s| ==> '0' <= s[i] <= '9'
  {
    if s == "" then 0 else 10 * DigitsValue(s[..|s| - 1]) + (s[|s| - 1] - '0') as nat
  }

  /** The digits printed are those of the number, without leading zeros. */
  lemma {:induction false} DecimalReads(n: nat)
    ensures AreDigits(Decimal(n)) && DigitsValue(Decimal(n)) == n
    ensures Decimal(n)[0] == '0' ==> Decimal(n) == "0"
  {
    var digit := [(n % 10 + '0' as int) as char];
    if n < 10 {
      assert digit[..0] == "";
    } else {
      DecimalReads(n / 10);
      var front := Decimal(n / 10);
      assert (front + digit)[..|front|] == front;
    }
  }

  /** The number that a text of digits, perhaps with a sign, stands for. */
  predicate ReadsAs(s: string, n: int) {
    if n < 0 then s != "" && s[0] == '-' && AreDigits(s[1..]) && s[1] != '0' && DigitsValue(s[1..]) == -n
    else AreDigits(s) && (s[0] == '0' ==> s == "0") && DigitsValue(s) == n
  }

  lemma ToDecimalReads(n: int)
    ensures ReadsAs(ToDecimal(n), n)
  {
    hide Decimal;
    if n < 0 {
      DecimalReads(-n);
      assert ToDecimal(n)[1..] == Decimal(-n);
      assert Decimal(-n) == "0" ==> DigitsValue(Decimal(-n)) == DigitsValue("0") == 0 by { assert "0"[..0] == ""; }
    } else {
      DecimalReads(n);
    }
  }

  /** addSessionId on a channel that parses: the same channel with this session id, whatever it had before. */
  lemma AddSessionIdParses(channel: string, sessionId: int, order: seq<string>)
    requires Parse(channel).Ok?
    requires Lists(order, Parse(channel).uri.params[SESSION_ID := ToDecimal(sessionId)])
    ensures var u := Parse(channel).uri;
            var u' := u.(params := u.params[SESSION_ID := ToDecimal(sessionId)]);
            Parse(Printed(u', order)) == Ok(u') && ReadsAs(u'.params[SESSION_ID], sessionId)
  {
    ToDecimalReads(sessionId);
    ParsedIsWellFormed(channel);
    var u := Parse(channel).uri;
    var u' := u.(params := u.params[SESSION_ID := ToDecimal(sessionId)]);
    assert WellFormedPair(Pair(SESSION_ID, ToDecimal(sessionId)));
    assert SESSION_ID in u'.params;
    PrintParse(u', order);
  }
}
