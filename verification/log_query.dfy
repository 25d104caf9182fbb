/**
  Log-level configuration from the page's query string
  (`web/common/src/lib.rs`): `parse_url_query_string` and the part of
  `init_logger` that turns `loglvl_` pairs into level directives, collecting
  the values that do not parse as levels.
 */
module LogQuery {
  import opened Wrappers
  import opened Text

  /**
    `segment` reads as `key=value`, where `key` is the text before the first
    `=` and `value` the text between the first `=` and the second one (or the
    end of the segment).
   */
  predicate KeyValueAt(segment: string, key: string, value: string)
  {
    && '=' !in key && '=' !in value
    && |key| + 1 + |value| <= |segment|
    && segment[..|key|] == key
    && segment[|key|] == '='
    && segment[|key| + 1..|key| + 1 + |value|] == value
    && (|key| + 1 + |value| == |segment| || segment[|key| + 1 + |value|] == '=')
  }

  /** A non-empty join starts with its first piece, followed by the separator when more pieces follow. */
  lemma JoinPiecesHead(pieces: seq<string>, sep: char)
    requires |pieces| >= 2
    ensures JoinPieces(pieces, sep) == pieces[0] + [sep] + JoinPieces(pieces[1..], sep)
  {
  }

  /**
    The filter of `parse_url_query_string` for one `&`-separated segment: split
    on `=`, take the first two pieces (none if there is no `=`), and keep the
    pair only when the key starts with `prefix`.
   */
  function ParseSegment(segment: string, prefix: string): (r: Option<(string, string)>)
    ensures r.Some? <==> '=' in segment && prefix <= segment[..IndexOf(segment, '=')]
    ensures r.Some? ==> KeyValueAt(segment, r.value.0, r.value.1) && prefix <= r.value.0
  {
    var pieces := Split(segment, '=');
    if |pieces| < 2 then None
    else
      JoinPiecesHead(pieces, '=');
      var rest := JoinPieces(pieces[1..], '=');
      assert segment == pieces[0] + ['='] + rest;
      IndexOfAfterFree(pieces[0], rest, '=');
      assert segment[..|pieces[0]|] == pieces[0];
      assert |pieces[1..]| == 1 || rest == pieces[1] + ['='] + JoinPieces(pieces[2..], '=') by {
        if |pieces[1..]| >= 2 {
          JoinPiecesHead(pieces[1..], '=');
          assert pieces[1..][1..] == pieces[2..];
        }
      }
      assert segment[|pieces[0]| + 1..] == rest;
      if prefix <= pieces[0] then Some((pieces[0], pieces[1])) else None
  }

  /** The pairs of a sequence of segments, in segment order. */
  function CollectPairs(segments: seq<string>, prefix: string): (pairs: seq<(string, string)>)
    ensures |pairs| <= |segments|
    ensures forall j :: 0 <= j < |pairs| ==> prefix <= pairs[j].0 && '=' !in pairs[j].0 && '=' !in pairs[j].1
    ensures forall j :: 0 <= j < |pairs| ==> ProducedBy(segments, prefix, pairs[j])
  {
    if |segments| == 0 then []
    else
      var rest := CollectPairs(segments[1..], prefix);
      PairsOfTail(segments, prefix, rest);
      match ParseSegment(segments[0], prefix)
      case Some(pair) => [pair] + rest
      case None => rest
  }

  /** Some segment parses to `pair`. */
  predicate ProducedBy(segments: seq<string>, prefix: string, pair: (string, string))
  {
    exists i :: 0 <= i < |segments| && ParseSegment(segments[i], prefix) == Some(pair)
  }

  /** A pair produced by the segments after the first is produced by some segment of the whole list. */
  lemma PairsOfTail(segments: seq<string>, prefix: string, rest: seq<(string, string)>)
    requires |segments| > 0
    requires forall j :: 0 <= j < |rest| ==> ProducedBy(segments[1..], prefix, rest[j])
    ensures forall j :: 0 <= j < |rest| ==> ProducedBy(segments, prefix, rest[j])
  {
    forall j | 0 <= j < |rest|
      ensures ProducedBy(segments, prefix, rest[j])
    {
      var i :| 0 <= i < |segments[1..]| && ParseSegment(segments[1..][i], prefix) == Some(rest[j]);
      assert segments[1..][i] == segments[i + 1];
    }
  }

  /** `parse_url_query_string`: the `key=value` pairs of the `&`-separated segments whose key starts with `prefix`. */
  function ParseUrlQueryString(query: string, prefix: string): (pairs: seq<(string, string)>)
    ensures |pairs| <= |Split(query, '&')|
  {
    CollectPairs(Split(query, '&'), prefix)
  }

  lemma {:induction false} CollectPairsAppend(xs: seq<string>, ys: seq<string>, prefix: string)
    ensures CollectPairs(xs + ys, prefix) == CollectPairs(xs, prefix) + CollectPairs(ys, prefix)
    decreases |xs|
  {
    if |xs| == 0 {
      assert xs + ys == ys;
    } else {
      assert (xs + ys)[0] == xs[0];
      assert (xs + ys)[1..] == xs[1..] + ys;
      CollectPairsAppend(xs[1..], ys, prefix);
    }
  }

  /** Pairs come out in query order: the pairs of `a&b` are those of `a` followed by those of `b`. */
  lemma ParseQueryConcat(a: string, b: string, prefix: string)
    ensures ParseUrlQueryString(a + "&" + b, prefix)
              == ParseUrlQueryString(a, prefix) + ParseUrlQueryString(b, prefix)
  {
    SplitAppend(a, b, '&');
    assert a + "&" + b == a + ['&'] + b;
    CollectPairsAppend(Split(a, '&'), Split(b, '&'), prefix);
  }

  /** A query with a single segment yields at most that segment's pair. */
  lemma ParseSingleSegment(segment: string, prefix: string)
    requires '&' !in segment
    ensures ParseUrlQueryString(segment, prefix)
              == match ParseSegment(segment, prefix) case Some(p) => [p] case None => []
  {
    assert Split(segment, '&')[1..] == [];
  }

  // ---------------------------------------------------------------------------
  // Level directives

  /** `log::LevelFilter`. */
  datatype LevelFilter = Off | Error | Warn | Info | Debug | Trace

  /** One call on the logger builder: `level` sets the base level, `level_for` a module's level. */
  datatype Directive = BaseLevel(level: LevelFilter) | ModuleLevel(target: string, level: LevelFilter)

  /** A query pair whose value is not a level, with the parser's error. */
  datatype ParseFailure<E> = ParseFailure(key: string, value: string, error: E)

  /** The directives given to the logger, in order, and the failures reported once it is set up. */
  datatype LoggerSetup<E> = LoggerSetup(directives: seq<Directive>, failures: seq<ParseFailure<E>>)

  const LevelPrefix: string := "loglvl_"

  /** The levels set before the query is read: `Info` overall, `Error` for the two noisy GPU crates. */
  const DefaultDirectives: seq<Directive> :=
    [BaseLevel(Info), ModuleLevel("wgpu_core", Error), ModuleLevel("wgpu_hal", Error)]

  /** The directive for a key that starts with `loglvl_`: `loglvl_base` is the base level, `loglvl_<m>` module `m`. */
  function DirectiveFor(key: string, level: LevelFilter): Directive
    requires LevelPrefix <= key
  {
    var target := key[|LevelPrefix|..];
    if target == "base" then BaseLevel(level) else ModuleLevel(target, level)
  }

  /**
    One iteration of the loop in `init_logger`: a value that does not parse is
    recorded as a failure; otherwise the key, stripped of `loglvl_`, picks the
    directive. A key without the prefix leaves the setup unchanged.
   */
  function ApplyPair<E>(setup: LoggerSetup<E>, key: string, value: string,
                        parse: string -> Result<LevelFilter, E>): LoggerSetup<E>
  {
    match parse(value)
    case Err(error) => setup.(failures := setup.failures + [ParseFailure(key, value, error)])
    case Ok(level) =>
      if LevelPrefix <= key then setup.(directives := setup.directives + [DirectiveFor(key, level)])
      else setup
  }

  /** The loop of `init_logger` over the query pairs, in order. */
  function ApplyPairs<E>(setup: LoggerSetup<E>, pairs: seq<(string, string)>,
                         parse: string -> Result<LevelFilter, E>): LoggerSetup<E>
    decreases |pairs|
  {
    if |pairs| == 0 then setup
    else ApplyPairs(ApplyPair(setup, pairs[0].0, pairs[0].1, parse), pairs[1..], parse)
  }

  /**
    The directive-building part of `init_logger`, given the location's search
    string (`?` included) and the level parser: the query is read only when
    the search string starts with `?`, which is stripped once.
   */
  function InitLogger<E>(search: string, parse: string -> Result<LevelFilter, E>): LoggerSetup<E>
  {
    var setup := LoggerSetup(DefaultDirectives, []);
    if |search| > 0 && search[0] == '?' then ApplyPairs(setup, ParseUrlQueryString(search[1..], LevelPrefix), parse)
    else setup
  }

  /** Every pair carries the level prefix. */
  predicate AllPrefixed(pairs: seq<(string, string)>)
  {
    forall j :: 0 <= j < |pairs| ==> LevelPrefix <= pairs[j].0
  }

  /** Reference definition: the directives of the pairs whose value parses, in order. */
  function ParsedDirectives<E>(pairs: seq<(string, string)>, parse: string -> Result<LevelFilter, E>): seq<Directive>
    requires AllPrefixed(pairs)
  {
    if |pairs| == 0 then []
    else
      var rest := ParsedDirectives(pairs[1..], parse);
      match parse(pairs[0].1)
      case Ok(level) => [DirectiveFor(pairs[0].0, level)] + rest
      case Err(_) => rest
  }

  /** Reference definition: the failures of the pairs whose value does not parse, in order. */
  function Failures<E>(pairs: seq<(string, string)>, parse: string -> Result<LevelFilter, E>): seq<ParseFailure<E>>
  {
    if |pairs| == 0 then []
    else
      var rest := Failures(pairs[1..], parse);
      match parse(pairs[0].1)
      case Ok(_) => rest
      case Err(error) => [ParseFailure(pairs[0].0, pairs[0].1, error)] + rest
  }

  /** Every pair contributes exactly one directive or one failure. */
  lemma {:induction false} PairsAccountedFor<E>(pairs: seq<(string, string)>, parse: string -> Result<LevelFilter, E>)
    requires AllPrefixed(pairs)
    ensures |ParsedDirectives(pairs, parse)| + |Failures(pairs, parse)| == |pairs|
    decreases |pairs|
  {
    if |pairs| > 0 {
      PairsAccountedFor(pairs[1..], parse);
    }
  }

  /**
    The loop appends, in pair order, one directive per parsed value and one
    failure per value that does not parse; nothing else changes.
   */
  lemma {:induction false} ApplyPairsSplits<E>(setup: LoggerSetup<E>, pairs: seq<(string, string)>,
                                               parse: string -> Result<LevelFilter, E>)
    requires AllPrefixed(pairs)
    ensures ApplyPairs(setup, pairs, parse)
              == LoggerSetup(setup.directives + ParsedDirectives(pairs, parse),
                             setup.failures + Failures(pairs, parse))
    decreases |pairs|
  {
    if |pairs| > 0 {
      var (key, value) := pairs[0];
      var next := ApplyPair(setup, key, value, parse);
      assert AllPrefixed(pairs[1..]);
      ApplyPairsSplits(next, pairs[1..], parse);
      match parse(value)
      case Ok(level) =>
        assert LevelPrefix <= key;
        assert next == LoggerSetup(setup.directives + [DirectiveFor(key, level)], setup.failures);
        assert ParsedDirectives(pairs, parse) == [DirectiveFor(key, level)] + ParsedDirectives(pairs[1..], parse);
        assert Failures(pairs, parse) == Failures(pairs[1..], parse);
        assert setup.directives + ParsedDirectives(pairs, parse)
            == setup.directives + [DirectiveFor(key, level)] + ParsedDirectives(pairs[1..], parse);
      case Err(error) =>
        assert next == LoggerSetup(setup.directives, setup.failures + [ParseFailure(key, value, error)]);
        assert ParsedDirectives(pairs, parse) == ParsedDirectives(pairs[1..], parse);
        assert Failures(pairs, parse) == [ParseFailure(key, value, error)] + Failures(pairs[1..], parse);
        assert setup.failures + Failures(pairs, parse)
            == setup.failures + [ParseFailure(key, value, error)] + Failures(pairs[1..], parse);
    }
  }

  /**
    What `init_logger` configures: the defaults first, then one directive per
    `loglvl_` pair whose value parses, in query order; the pairs whose value
    does not parse are reported, in query order, and add no directive. A
    search string without a leading `?` leaves the defaults alone.
   */
  lemma InitLoggerOutcome<E>(search: string, parse: string -> Result<LevelFilter, E>)
    ensures var setup := InitLogger(search, parse);
            if |search| > 0 && search[0] == '?' then
              var pairs := ParseUrlQueryString(search[1..], LevelPrefix);
              && AllPrefixed(pairs)
              && setup.directives == DefaultDirectives + ParsedDirectives(pairs, parse)
              && setup.failures == Failures(pairs, parse)
              && |setup.directives| + |setup.failures| == |DefaultDirectives| + |pairs|
            else
              setup == LoggerSetup(DefaultDirectives, [])
  {
    if |search| > 0 && search[0] == '?' {
      var pairs := ParseUrlQueryString(search[1..], LevelPrefix);
      ApplyPairsSplits(LoggerSetup(DefaultDirectives, []), pairs, parse);
      PairsAccountedFor(pairs, parse);
      assert [] + Failures(pairs, parse) == Failures(pairs, parse);
    }
  }

  /** The segment `key=value` with `=`-free key and value yields exactly that pair when the key has the prefix. */
  lemma ParseSegmentOfPair(key: string, value: string, prefix: string)
    requires '=' !in key && '=' !in value && prefix <= key
    ensures ParseSegment(key + "=" + value, prefix) == Some((key, value))
  {
    var segment := key + "=" + value;
    assert segment == key + ['='] + value;
    IndexOfAfterFree(key, value, '=');
    assert segment[..|key|] == key;
    var r := ParseSegment(segment, prefix);
    var k, v := r.value.0, r.value.1;
    assert k == segment[..|k|] && segment[|k|] == '=';
    assert |k| == |key| by {
      assert forall i :: 0 <= i < |key| ==> segment[i] == key[i];
      assert forall i :: 0 <= i < |k| ==> segment[i] == k[i];
    }
    assert segment[|key| + 1..] == value;
    assert |v| == |value| by {
      assert forall i :: |key| < i < |segment| ==> segment[i] == value[i - |key| - 1];
    }
  }

  /** A query holding the single segment `key=value` yields exactly that pair. */
  lemma QueryOfPair(key: string, value: string, prefix: string)
    requires '=' !in key && '=' !in value && '&' !in key && '&' !in value && prefix <= key
    ensures ParseUrlQueryString(key + "=" + value, prefix) == [(key, value)]
  {
    var segment := key + "=" + value;
    assert '&' !in segment by {
      assert forall i :: 0 <= i < |segment| ==> segment[i] in key || segment[i] == '=' || segment[i] in value;
    }
    ParseSegmentOfPair(key, value, prefix);
    ParseSingleSegment(segment, prefix);
  }

  /** The key `loglvl_<target>` is free of the separators when `target` is. */
  lemma LevelKeySeparatorFree(target: string)
    requires '=' !in target && '&' !in target
    ensures '=' !in LevelPrefix + target && '&' !in LevelPrefix + target
    ensures (LevelPrefix + target)[|LevelPrefix|..] == target
  {
    var key := LevelPrefix + target;
    assert forall i :: 0 <= i < |key| ==> key[i] in LevelPrefix || key[i] in target;
  }

  /** A single pair contributes its directive or its failure. */
  lemma OnePair<E>(key: string, value: string, parse: string -> Result<LevelFilter, E>)
    requires LevelPrefix <= key
    ensures AllPrefixed([(key, value)])
    ensures parse(value).Ok? ==> ParsedDirectives([(key, value)], parse) == [DirectiveFor(key, parse(value).value)]
                                 && Failures([(key, value)], parse) == []
    ensures parse(value).Err? ==> ParsedDirectives([(key, value)], parse) == []
                                  && Failures([(key, value)], parse) == [ParseFailure(key, value, parse(value).error)]
  {
    assert [(key, value)][1..] == [];
  }

  /** A search string holding one prefixed pair is the defaults followed by that pair's outcome. */
  lemma SinglePairQuery<E>(key: string, value: string, parse: string -> Result<LevelFilter, E>)
    requires '=' !in key && '=' !in value && '&' !in key && '&' !in value && LevelPrefix <= key
    ensures AllPrefixed([(key, value)])
    ensures InitLogger("?" + key + "=" + value, parse)
              == LoggerSetup(DefaultDirectives + ParsedDirectives([(key, value)], parse), Failures([(key, value)], parse))
  {
    var search := "?" + key + "=" + value;
    assert search[0] == '?' && search[1..] == key + "=" + value;
    QueryOfPair(key, value, LevelPrefix);
    InitLoggerOutcome(search, parse);
  }

  /**
    A search string `?loglvl_<target>=<value>` adds one directive after the
    defaults when the value parses (the base level for `base`, module
    `target` otherwise), and otherwise adds none and reports one failure.
   */
  lemma SingleLevelQuery<E>(target: string, value: string, parse: string -> Result<LevelFilter, E>)
    requires '=' !in target && '=' !in value && '&' !in target && '&' !in value
    ensures var key := LevelPrefix + target;
            var setup := InitLogger("?" + key + "=" + value, parse);
            match parse(value)
            case Ok(level) =>
              && setup.directives == DefaultDirectives + [if target == "base" then BaseLevel(level) else ModuleLevel(target, level)]
              && setup.failures == []
            case Err(error) =>
              && setup.directives == DefaultDirectives
              && setup.failures == [ParseFailure(key, value, error)]
  {
    var key := LevelPrefix + target;
    LevelKeySeparatorFree(target);
    SinglePairQuery(key, value, parse);
    OnePair(key, value, parse);
    var setup := InitLogger("?" + key + "=" + value, parse);
    match parse(value)
    case Ok(level) =>
      assert DirectiveFor(key, level) == if target == "base" then BaseLevel(level) else ModuleLevel(target, level);
    case Err(error) =>
      assert setup.directives == DefaultDirectives + [];
  }
}
