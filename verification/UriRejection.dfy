/**
 Which texts the parser of channel URIs rejects, and as what (ChannelUri.h).
 */
module UriRejections {
  import opened ChannelUris

  /** Pairs that are complete, each with the '|' behind it. */
  function Terminated(pairs: seq<Pair>): string {
    if pairs == [] then "" else pairs[0].key + "=" + pairs[0].value + "|" + Terminated(pairs[1..])
  }

  /** What follows the '?'. */
  function Parameters(pairs: seq<Pair>, key: string, more: string): string {
    Terminated(pairs) + key + more
  }

  /** What follows the scheme when the parser stops at the start of more, or at the end of the text. */
  function Broken(error: ParseError, media: string, pairs: seq<Pair>, key: string, more: string): string {
    match error
    case BadScheme => ""
    case UnknownMedia => media
    case BadMedia => media + more
    case _ => media + ("?" + Parameters(pairs, key, more))
  }

  /** The parts before the fault are as the grammar has them, and this is the fault. */
  predicate Fault(error: ParseError, media: string, pairs: seq<Pair>, key: string, more: string) {
    && CleanMedia(media) && CleanKey(key) && (forall i :: 0 <= i < |pairs| ==> WellFormedPair(pairs[i]))
    && match error
       case BadScheme => false
       case UnknownMedia => media != "ipc" && media != "udp"
       case BadMedia => more != "" && (more[0] == ':' || more[0] == '|' || more[0] == '=')
       case EmptyKey => key == "" && more != "" && more[0] == '='
       case BadKeyEnd => more != "" && more[0] == '|'
       case NoMoreInput => more == ""
  }

  lemma {:induction false} FaultyKeyScans(error: ParseError, prefix: string, previous: string, media: string,
                                         params: map<string, string>, pairs: seq<Pair>, key: string, more: string)
    requires Fault(error, media, pairs, key, more) && !error.UnknownMedia? && !error.BadMedia?
    ensures Scan(PARAMS_KEY, prefix, "", previous, media, params, Terminated(pairs) + key + more) == Err(error)
    decreases |pairs|
  {
    if pairs == [] {
      KeyRun(prefix, "", previous, media, params, key, more);
      assert Terminated(pairs) + key + more == key + more && "" + key == key;
    } else {
      var p := pairs[0];
      var after := Terminated(pairs[1..]) + key + more;
      assert Terminated(pairs) + key + more == p.key + "=" + p.value + ("|" + after);
      PairRun(prefix, previous, media, params, p, "|" + after);
      assert ("|" + after)[1..] == after;
      FaultyKeyScans(error, prefix, p.key, media, Emplace(params, p.key, p.value), pairs[1..], key, more);
    }
  }

  lemma FaultScans(error: ParseError, prefix: string, media: string, pairs: seq<Pair>, key: string, more: string)
    requires Fault(error, media, pairs, key, more)
    ensures Scan(MEDIA, prefix, "", "", "", map[], Broken(error, media, pairs, key, more)) == Err(error)
  {
    hide Terminated, CleanKey, WellFormedPair;
    assert "" + media == media;
    if error.UnknownMedia? {
      MediaRun(prefix, "", media, map[], "");
      assert media + "" == media;
    } else if error.BadMedia? {
      MediaRun(prefix, "", media, map[], more);
    } else {
      FaultyPairsScan(error, prefix, media, pairs, key, more);
    }
  }

  lemma FaultyPairsScan(error: ParseError, prefix: string, media: string, pairs: seq<Pair>, key: string, more: string)
    requires Fault(error, media, pairs, key, more) && !error.UnknownMedia? && !error.BadMedia?
    ensures Scan(MEDIA, prefix, "", "", "", map[], media + ("?" + Parameters(pairs, key, more))) == Err(error)
  {
    var after := Parameters(pairs, key, more);
    assert CleanMedia(media);
    assert Scan(PARAMS_KEY, prefix, "", "", media, map[], after) == Err(error) by {
      FaultyKeyScans(error, prefix, "", media, map[], pairs, key, more);
    }
    hide Fault, CleanMedia, Parameters;
    MediaRun(prefix, "", media, map[], "?" + after);
    assert "" + media == media && ("?" + after)[0] == '?' && ("?" + after)[1..] == after;
  }

  /** Rejected behind the '?'. */
  lemma {:induction false} RejectedPairs(mode: Mode, prefix: string, builder: string, key: string, media: string,
                                         params: map<string, string>, rest: string)
    returns (pairs: seq<Pair>, k: string, more: string)
    requires Standing(mode, builder, key, media) && mode != MEDIA
    requires Scan(mode, prefix, builder, key, media, params, rest).Err?
    ensures var e := Scan(mode, prefix, builder, key, media, params, rest).error;
            && !e.BadMedia? && !e.UnknownMedia? && Fault(e, media, pairs, k, more)
            && Current(mode, builder, key, rest) == Parameters(pairs, k, more)
    decreases |rest|
  {
    hide Fault, Parameters, Current;
    if rest == "" || (mode == PARAMS_KEY && (rest[0] == '|' || (rest[0] == '=' && builder == ""))) {
      pairs, k, more := [], builder, rest;
      FaultHere(mode, prefix, builder, key, media, params, rest);
    } else {
      CurrentMoves(mode, builder, key, rest);
      var after := rest[1..];
      if mode == PARAMS_KEY && rest[0] == '=' {
        pairs, k, more := RejectedPairs(PARAMS_VALUE, prefix, "", builder, media, params, after);
      } else if mode == PARAMS_VALUE && rest[0] == '|' {
        var tail;
        tail, k, more := RejectedPairs(PARAMS_KEY, prefix, "", key, media, Emplace(params, key, builder), after);
        pairs := [Pair(key, builder)] + tail;
        OneMoreTerminated(Scan(mode, prefix, builder, key, media, params, rest).error, media, key, builder, tail, k,
                          more);
      } else {
        pairs, k, more := RejectedPairs(mode, prefix, builder + [rest[0]], key, media, params, after);
      }
    }
  }

  lemma CurrentMoves(mode: Mode, builder: string, key: string, rest: string)
    requires rest != "" && mode != MEDIA
    ensures Current(mode, builder + [rest[0]], key, rest[1..]) == Current(mode, builder, key, rest)
    ensures mode == PARAMS_KEY && rest[0] == '=' ==>
              Current(PARAMS_VALUE, "", builder, rest[1..]) == Current(PARAMS_KEY, builder, key, rest)
    ensures mode == PARAMS_VALUE && rest[0] == '|' ==>
              key + "=" + builder + ("|" + Current(PARAMS_KEY, "", key, rest[1..]))
              == Current(PARAMS_VALUE, builder, key, rest)
  {
    var c, after := [rest[0]], rest[1..];
    assert rest == c + after && "" + after == after;
    if mode == PARAMS_KEY {
      assert (builder + c) + after == builder + (c + after);
      assert builder + "=" + "" + after == builder + ("=" + after);
    } else {
      var front := key + "=";
      assert front + (builder + c) + after == front + builder + (c + after);
    }
  }

  lemma FaultHere(mode: Mode, prefix: string, builder: string, key: string, media: string,
                  params: map<string, string>, rest: string)
    requires Standing(mode, builder, key, media) && mode != MEDIA
    requires Scan(mode, prefix, builder, key, media, params, rest).Err?
    requires rest == "" || (mode == PARAMS_KEY && (rest[0] == '|' || (rest[0] == '=' && builder == "")))
    ensures var e := Scan(mode, prefix, builder, key, media, params, rest).error;
            && !e.BadMedia? && !e.UnknownMedia? && Fault(e, media, [], builder, rest)
            && Current(mode, builder, key, rest) == Parameters([], builder, rest)
  {
    assert "" + builder == builder;
  }

  lemma OneMoreTerminated(error: ParseError, media: string, key: string, value: string, tail: seq<Pair>, k: string,
                          more: string)
    requires Fault(error, media, tail, k, more) && WellFormedPair(Pair(key, value))
    ensures Fault(error, media, [Pair(key, value)] + tail, k, more)
    ensures key + "=" + value + ("|" + Parameters(tail, k, more)) == Parameters([Pair(key, value)] + tail, k, more)
  {
    assert ([Pair(key, value)] + tail)[1..] == tail;
  }

  /** A rejected text has one of the faults. */
  lemma {:induction false} RejectedText(prefix: string, builder: string, rest: string)
    returns (media: string, pairs: seq<Pair>, k: string, more: string)
    requires CleanMedia(builder) && Scan(MEDIA, prefix, builder, "", "", map[], rest).Err?
    ensures var e := Scan(MEDIA, prefix, builder, "", "", map[], rest).error;
            Fault(e, media, pairs, k, more) && builder + rest == Broken(e, media, pairs, k, more)
    decreases |rest|
  {
    hide Parameters;
    if rest == "" || rest[0] == ':' || rest[0] == '|' || rest[0] == '=' {
      media, pairs, k, more := builder, [], "", rest;
    } else {
      var c, after := rest[0], rest[1..];
      assert rest == [c] + after;
      if c == '?' {
        media := builder;
        pairs, k, more := RejectedPairs(PARAMS_KEY, prefix, "", "", builder, map[], after);
        assert "" + after == after;
      } else {
        media, pairs, k, more := RejectedText(prefix, builder + [c], after);
        assert (builder + [c]) + after == builder + rest;
      }
    }
  }

  ghost predicate HasScheme(s: string, prefix: string, text: string) {
    || (prefix == "" && s == "aeron:" + text)
    || (prefix == "aeron-spy" && s == "aeron-spy:aeron:" + text)
  }

  lemma SchemeScans(s: string, prefix: string, text: string)
    requires HasScheme(s, prefix, text)
    ensures Parse(s) == Scan(MEDIA, prefix, "", "", "", map[], text)
  {
    hide Scan;
    if prefix == "" {
      PlainScheme(text);
    } else {
      assert s == SPY_PREFIX + (AERON_PREFIX + text);
      SpyScheme(text);
    }
  }

  lemma SchemeNeeded(s: string) returns (prefix: string, text: string)
    requires !Parse(s).Err? || !Parse(s).error.BadScheme?
    ensures HasScheme(s, prefix, text)
  {
    hide Scan;
    var spy := StartsWith(s, 0, SPY_PREFIX);
    prefix := if spy then SPY_QUALIFIER else "";
    text := s[(if spy then |SPY_PREFIX| else 0) + |AERON_PREFIX|..];
    assert s[0..] == s;
    if spy {
      assert s == SPY_PREFIX + s[|SPY_PREFIX|..];
      assert s[|SPY_PREFIX|..] == AERON_PREFIX + text;
    } else {
      assert s == AERON_PREFIX + text;
    }
  }

  /** Each error is answered for exactly the texts with its fault. */
  lemma RejectedIff(s: string, error: ParseError)
    ensures error.BadScheme? ==>
              (Parse(s) == Err(error) <==> !exists prefix, text :: HasScheme(s, prefix, text))
    ensures !error.BadScheme? ==>
              (Parse(s) == Err(error) <==>
               exists prefix, media, pairs, key, more ::
                 Fault(error, media, pairs, key, more)
                 && HasScheme(s, prefix, Broken(error, media, pairs, key, more)))
  {
    hide Scan, Fault, Broken, HasScheme;
    if !error.BadScheme? {
      forall prefix, media, pairs, key, more | Fault(error, media, pairs, key, more)
        && HasScheme(s, prefix, Broken(error, media, pairs, key, more))
        ensures Parse(s) == Err(error)
      {
        SchemeScans(s, prefix, Broken(error, media, pairs, key, more));
        FaultScans(error, prefix, media, pairs, key, more);
      }
      if Parse(s) == Err(error) {
        var prefix, text := SchemeNeeded(s);
        SchemeScans(s, prefix, text);
        var media, pairs, key, more := RejectedText(prefix, "", text);
        assert "" + text == text;
      }
    } else {
      forall prefix, text | HasScheme(s, prefix, text)
        ensures Parse(s) != Err(error)
      {
        SchemeScans(s, prefix, text);
        ScanHasScheme(MEDIA, prefix, "", "", "", map[], text);
      }
      if Parse(s) != Err(error) {
        var prefix, text := SchemeNeeded(s);
      }
    }
  }

  /** The scheme is not looked at again. */
  lemma ScanHasScheme(mode: Mode, prefix: string, builder: string, key: string, media: string,
                      params: map<string, string>, rest: string)
    ensures Scan(mode, prefix, builder, key, media, params, rest) != Err(BadScheme)
    decreases |rest|
  {
  }

  /** A text with two values for one key, and what comes of it. */
  lemma ParsedExample()
    ensures Parse("aeron-spy:aeron:udp?port=1|port=2") == Ok(Uri("aeron-spy", "udp", map["port" := "1"]))
  {
    var pairs := [Pair("port", "1"), Pair("port", "2")];
    assert Joined(pairs) == "port=1|port=2" by {
      assert pairs[1..] == [Pair("port", "2")];
      assert Joined(pairs[1..]) == "port=2";
    }
    assert FirstWins(map[], pairs) == map["port" := "1"] by {
      assert FirstWins(map["port" := "1"], pairs[1..]) == map["port" := "1"];
    }
    assert Composed("aeron-spy", "udp", pairs) == "aeron-spy:aeron:udp?port=1|port=2" by {
      hide Joined;
    }
    hide Parse, Composed, FirstWins, Joined;
    ComposedParses("aeron-spy", "udp", pairs);
  }
}
