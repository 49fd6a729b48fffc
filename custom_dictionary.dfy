/** The token dictionary of custom_dictionary.c: option validation into a
    two-flag configuration, and the rule that splits long `fn...` identifiers
    at their first and last underscore. */
module CustomDictionary {
  import opened Basics

  /** CFTSDict: whether the prefix before the first '_' and the full token are
      emitted next to the middle part. */
  datatype Config = Config(tokenizePrefix: bool, tokenizeFull: bool)

  /** One dictionary option, its value already parsed to a boolean. */
  datatype DefElem = DefElem(defname: string, value: bool)

  /** The configuration errors `init` reports. */
  datatype InitError =
    | MultiplePrefix
    | MultipleFull
    | Unrecognized(name: string)
    | BothRequired

  /** One output lexeme with its variant rank (1 for the token as given, 2 for
      a part of it). */
  datatype Lexeme = Lexeme(lexeme: seq<Byte>, nvariant: nat)

  const PrefixOption: string := "tokenize_prefix"
  const FullOption: string := "tokenize_full"

  /** ASCII lower-casing. */
  function ToLower(c: char): char {
    if 'A' <= c <= 'Z' then (c as int + 32) as char else c
  }

  /** Equality up to ASCII case, as pg_strcasecmp(a, b) == 0. */
  predicate SameIgnoringCase(a: string, b: string) {
    |a| == |b| && forall i :: 0 <= i < |a| ==> ToLower(a[i]) == ToLower(b[i])
  }

  predicate IsKnown(name: string) {
    SameIgnoringCase(PrefixOption, name) || SameIgnoringCase(FullOption, name)
  }

  /** Number of options whose name is `name` up to case. */
  function CountNamed(options: seq<DefElem>, name: string): nat {
    if options == [] then 0
    else (if SameIgnoringCase(name, options[0].defname) then 1 else 0) + CountNamed(options[1..], name)
  }

  /** The outcome of validating `options` when the prefix and full flags seen
      so far hold the given values (None: not seen yet). */
  function InitFrom(options: seq<DefElem>, prefix: Option<bool>, full: Option<bool>): Result<Config, InitError>
    decreases |options|
  {
    if options == [] then
      if prefix.Some? && full.Some? then Ok(Config(prefix.value, full.value)) else Err(BothRequired)
    else
      var defel := options[0];
      if SameIgnoringCase(PrefixOption, defel.defname) then
        if prefix.Some? then Err(MultiplePrefix) else InitFrom(options[1..], Some(defel.value), full)
      else if SameIgnoringCase(FullOption, defel.defname) then
        if full.Some? then Err(MultipleFull) else InitFrom(options[1..], prefix, Some(defel.value))
      else
        Err(Unrecognized(defel.defname))
  }

  /** The outcome of cfts_tokendict_init on an option list. */
  function InitOutcome(options: seq<DefElem>): Result<Config, InitError> {
    InitFrom(options, None, None)
  }

  function Seen(flag: Option<bool>): nat {
    if flag.Some? then 1 else 0
  }

  /** Every option names tokenize_prefix or tokenize_full, up to case. */
  predicate AllKnown(options: seq<DefElem>) {
    forall i :: 0 <= i < |options| ==> IsKnown(options[i].defname)
  }

  /** Which outcome validation from a partial state reaches, stated through
      the number of times each flag is given. */
  lemma {:induction false} InitFromCounts(options: seq<DefElem>, prefix: Option<bool>, full: Option<bool>)
    ensures var r := InitFrom(options, prefix, full);
            var np := CountNamed(options, PrefixOption) + Seen(prefix);
            var nf := CountNamed(options, FullOption) + Seen(full);
            (r.Ok? <==> AllKnown(options) && np == 1 && nf == 1) &&
            (r == Err(BothRequired) <==> AllKnown(options) && np <= 1 && nf <= 1 && (np == 0 || nf == 0)) &&
            (r == Err(MultiplePrefix) ==> np >= 2) &&
            (r == Err(MultipleFull) ==> nf >= 2)
    decreases |options|
  {
    if options != [] {
      var defel := options[0];
      var rest := options[1..];
      assert AllKnown(options) <==> IsKnown(defel.defname) && AllKnown(rest) by {
        assert forall i :: 1 <= i < |options| ==> options[i] == rest[i - 1];
      }
      if SameIgnoringCase(PrefixOption, defel.defname) {
        InitFromCounts(rest, Some(defel.value), full);
        assert !SameIgnoringCase(FullOption, defel.defname);
      } else if SameIgnoringCase(FullOption, defel.defname) {
        InitFromCounts(rest, prefix, Some(defel.value));
      }
    }
  }

  /** An unrecognized-option error names an option of the list that is
      neither flag. */
  lemma {:induction false} InitFromNamesUnknown(options: seq<DefElem>, prefix: Option<bool>, full: Option<bool>)
    ensures var r := InitFrom(options, prefix, full);
            r.Err? && r.error.Unrecognized? ==>
              exists i :: 0 <= i < |options| && options[i].defname == r.error.name && !IsKnown(options[i].defname)
    decreases |options|
  {
    if options != [] {
      var defel := options[0];
      var rest := options[1..];
      var r := InitFrom(options, prefix, full);
      if SameIgnoringCase(PrefixOption, defel.defname) {
        InitFromNamesUnknown(rest, Some(defel.value), full);
      } else if SameIgnoringCase(FullOption, defel.defname) {
        InitFromNamesUnknown(rest, prefix, Some(defel.value));
      }
      if r.Err? && r.error.Unrecognized? && (IsKnown(defel.defname)) {
        var i :| 0 <= i < |rest| && rest[i].defname == r.error.name && !IsKnown(rest[i].defname);
        assert options[i + 1] == rest[i];
      }
    }
  }

  /** A successful validation takes each flag's value from the option that
      gave it (or from the partial state). */
  lemma {:induction false} InitFromValues(options: seq<DefElem>, prefix: Option<bool>, full: Option<bool>)
    ensures var r := InitFrom(options, prefix, full);
            r.Ok? ==>
              (prefix.Some? ==> r.value.tokenizePrefix == prefix.value) &&
              (full.Some? ==> r.value.tokenizeFull == full.value) &&
              (forall i :: 0 <= i < |options| && SameIgnoringCase(PrefixOption, options[i].defname) ==>
                 r.value.tokenizePrefix == options[i].value) &&
              (forall i :: 0 <= i < |options| && SameIgnoringCase(FullOption, options[i].defname) ==>
                 r.value.tokenizeFull == options[i].value)
    decreases |options|
  {
    if options != [] {
      var defel := options[0];
      var rest := options[1..];
      assert forall i :: 1 <= i < |options| ==> options[i] == rest[i - 1];
      if SameIgnoringCase(PrefixOption, defel.defname) {
        InitFromValues(rest, Some(defel.value), full);
        assert !SameIgnoringCase(FullOption, defel.defname);
      } else if SameIgnoringCase(FullOption, defel.defname) {
        InitFromValues(rest, prefix, Some(defel.value));
      }
    }
  }

  /** `init` succeeds exactly when the options are one tokenize_prefix and one
      tokenize_full (any case), and the configuration holds their values. */
  lemma InitSucceedsIff(options: seq<DefElem>)
    ensures var r := InitOutcome(options);
            (r.Ok? <==>
               AllKnown(options) &&
               CountNamed(options, PrefixOption) == 1 && CountNamed(options, FullOption) == 1) &&
            (r.Ok? ==>
               (forall i :: 0 <= i < |options| && SameIgnoringCase(PrefixOption, options[i].defname) ==>
                  r.value.tokenizePrefix == options[i].value) &&
               (forall i :: 0 <= i < |options| && SameIgnoringCase(FullOption, options[i].defname) ==>
                  r.value.tokenizeFull == options[i].value))
  {
    InitFromCounts(options, None, None);
    InitFromValues(options, None, None);
  }

  /** A repeated option or an unknown option is an error other than the
      missing-option one. */
  lemma InitRejectsDuplicateOrUnknown(options: seq<DefElem>)
    requires CountNamed(options, PrefixOption) >= 2 || CountNamed(options, FullOption) >= 2 ||
             !AllKnown(options)
    ensures InitOutcome(options).Err? && InitOutcome(options).error != BothRequired
  {
    InitFromCounts(options, None, None);
  }

  /** "both tokenize options are required" is reported exactly when every
      option is known, none is repeated, and one of the two is absent. */
  lemma InitRequiresBoth(options: seq<DefElem>)
    ensures InitOutcome(options) == Err(BothRequired) <==>
            AllKnown(options) &&
            CountNamed(options, PrefixOption) <= 1 && CountNamed(options, FullOption) <= 1 &&
            (CountNamed(options, PrefixOption) == 0 || CountNamed(options, FullOption) == 0)
  {
    InitFromCounts(options, None, None);
  }

  /** The error named in each message comes from the option list. */
  lemma InitErrorsName(options: seq<DefElem>)
    ensures var r := InitOutcome(options);
            (r == Err(MultiplePrefix) ==> CountNamed(options, PrefixOption) >= 2) &&
            (r == Err(MultipleFull) ==> CountNamed(options, FullOption) >= 2) &&
            (r.Err? && r.error.Unrecognized? ==>
               exists i :: 0 <= i < |options| && options[i].defname == r.error.name && !IsKnown(options[i].defname))
  {
    InitFromCounts(options, None, None);
    InitFromNamesUnknown(options, None, None);
  }

  /** cfts_tokendict_init: walk the options, remember each flag once, reject
      repeats and unknown names, then require both flags. */
  method Init(options: seq<DefElem>) returns (r: Result<Config, InitError>)
    ensures r == InitOutcome(options)
  {
    var tp, tf := false, false;
    var prefix, full := false, false;
    var i := 0;
    while i < |options|
      invariant 0 <= i <= |options|
      invariant InitFrom(options[i..], if tp then Some(prefix) else None, if tf then Some(full) else None)
             == InitOutcome(options)
    {
      var defel := options[i];
      assert options[i..] == [defel] + options[i + 1..];
      if SameIgnoringCase(PrefixOption, defel.defname) {
        if tp {
          return Err(MultiplePrefix);
        }
        prefix := defel.value;
        tp := true;
      } else if SameIgnoringCase(FullOption, defel.defname) {
        if tf {
          return Err(MultipleFull);
        }
        full := defel.value;
        tf := true;
      } else {
        return Err(Unrecognized(defel.defname));
      }
      i := i + 1;
    }
    if !tp || !tf {
      return Err(BothRequired);
    }
    return Ok(Config(prefix, full));
  }

  lemma InitExamples()
    ensures InitOutcome([DefElem("TOKENIZE_PREFIX", true), DefElem("tokenize_full", false)])
         == Ok(Config(true, false))
    ensures InitOutcome([DefElem("tokenize_prefix", true)]) == Err(BothRequired)
    ensures InitOutcome([DefElem("tokenize_full", true), DefElem("Tokenize_Full", true)])
         == Err(MultipleFull)
    ensures InitOutcome([DefElem("stopwords", true)]) == Err(Unrecognized("stopwords"))
  {
    assert SameIgnoringCase(PrefixOption, "TOKENIZE_PREFIX");
    assert !SameIgnoringCase(PrefixOption, "tokenize_full");
    assert SameIgnoringCase(FullOption, "tokenize_full");
    assert !SameIgnoringCase(FullOption, "tokenize_prefix");
    assert !SameIgnoringCase(PrefixOption, "Tokenize_Full");
    assert SameIgnoringCase(FullOption, "Tokenize_Full");
    assert !SameIgnoringCase(PrefixOption, "stopwords");
    assert !SameIgnoringCase(FullOption, "stopwords");
  }

  // ---------------------------------------------------------------------
  // lexize

  /** The tokens considered for splitting: at least 20 bytes, starting "fn". */
  predicate Gate(token: seq<Byte>) {
    |token| >= 20 && token[0] == 'f' && token[1] == 'n'
  }

  /** The first underscore among s[1..hi). */
  function FirstUnderscore(s: seq<Byte>, hi: nat): (r: Option<nat>)
    requires hi <= |s|
    ensures r.Some? ==> 1 <= r.value < hi && s[r.value] == '_' &&
                        forall k :: 1 <= k < r.value ==> s[k] != '_'
    ensures r.None? ==> forall k :: 1 <= k < hi ==> s[k] != '_'
  {
    if hi <= 1 then None
    else match FirstUnderscore(s, hi - 1)
      case Some(f) => Some(f)
      case None => if s[hi - 1] == '_' then Some(hi - 1) else None
  }

  /** The last underscore among s[1..hi). */
  function LastUnderscore(s: seq<Byte>, hi: nat): (r: Option<nat>)
    requires hi <= |s|
    ensures r.Some? ==> 1 <= r.value < hi && s[r.value] == '_' &&
                        forall k :: r.value < k < hi ==> s[k] != '_'
    ensures r.None? ==> forall k :: 1 <= k < hi ==> s[k] != '_'
  {
    if hi <= 1 then None
    else if s[hi - 1] == '_' then Some(hi - 1)
    else LastUnderscore(s, hi - 1)
  }

  /** The split points the underscore loop finds in the bytes `seen` it tests
      (indices 1 .. |seen| - 1): the first underscore f and the last one l,
      when l lies beyond f + 1. */
  function SplitPoints(seen: seq<Byte>): Option<(nat, nat)> {
    match FirstUnderscore(seen, |seen|)
    case None => None
    case Some(f) =>
      match LastUnderscore(seen, |seen|)
      case None => None
      case Some(l) => if f + 1 < l then Some((f, l)) else None
  }

  /** The lexemes for `token` when the underscore loop tests the bytes of
      `seen`, which starts with the token and may hold one byte beyond it. */
  function LexemesFor(cfg: Config, token: seq<Byte>, seen: seq<Byte>): seq<Lexeme>
    requires |token| <= |seen| <= |token| + 1 && seen[..|token|] == token
  {
    if !Gate(token) then [Lexeme(token, 1)]
    else match SplitPoints(seen)
      case None => [Lexeme(token, 1)]
      case Some((f, l)) =>
        (if cfg.tokenizeFull then [Lexeme(token, 1)] else []) +
        (if cfg.tokenizePrefix then [Lexeme(token[..f], 2)] else []) +
        [Lexeme(token[f + 1..l], 2)]
  }

  /** The lexemes when the loop tests exactly the bytes of the token. */
  function Lexemes(cfg: Config, token: seq<Byte>): seq<Lexeme> {
    LexemesFor(cfg, token, token)
  }

  /** The lexemes as the source computes them: its loop also tests `follow`,
      the byte just past the token. */
  function LexemesAsWritten(cfg: Config, token: seq<Byte>, follow: Byte): seq<Lexeme> {
    LexemesFor(cfg, token, token + [follow])
  }

  /** cfts_tokendict_lexize over the bytes `seen` its loop tests: the gate,
      the underscore loop with its cursors, and the lexeme list. */
  method LexizeOver(cfg: Config, token: seq<Byte>, seen: seq<Byte>) returns (res: seq<Lexeme>)
    requires |token| <= |seen| <= |token| + 1 && seen[..|token|] == token
    ensures res == LexemesFor(cfg, token, seen)
  {
    if |token| < 20 || token[0] != 'f' || token[1] != 'n' {
      return [Lexeme(token, 1)];
    }
    // Cursors as offsets from the token start; 0 is the token start itself.
    var su, act, eu, p := 0, 0, 0, 0;
    var saw := false;
    for i := 0 to |seen| - 1
      invariant p == i
      invariant act == (match FirstUnderscore(seen, p + 1) case Some(f) => f case None => 0)
      invariant saw <==> FirstUnderscore(seen, p + 1) == Some(p)
      invariant su == (match FirstUnderscore(seen, p + 1) case Some(f) => if f < p then f + 1 else 0 case None => 0)
      invariant eu == (match FirstUnderscore(seen, p + 1)
                       case None => 0
                       case Some(f) =>
                         match LastUnderscore(seen, p + 1)
                         case Some(l) => if f < l then l else 0
                         case None => 0)
    {
      p := p + 1;
      if saw {
        su := p;
        saw := false;
      }
      if seen[p] == '_' {
        if su == 0 {
          act := p;
          saw := true;
        } else {
          eu := p;
        }
      }
    }
    if eu == 0 || su == 0 || su == eu {
      return [Lexeme(token, 1)];
    }
    assert SplitPoints(seen) == Some((act, eu)) && su == act + 1;
    // One slot per lexeme, filled in order through the cursor rettok.
    var tokens := 1 + (if cfg.tokenizeFull then 1 else 0) + (if cfg.tokenizePrefix then 1 else 0);
    var out := new Lexeme[tokens];
    var rettok := 0;
    if cfg.tokenizeFull {
      out[rettok] := Lexeme(token, 1);
      rettok := rettok + 1;
    }
    if cfg.tokenizePrefix {
      out[rettok] := Lexeme(token[..act], 2);
      rettok := rettok + 1;
    }
    out[rettok] := Lexeme(token[su..eu], 2);
    res := out[..];
  }

  /** Lexize with the loop confined to the token's own bytes. */
  method Lexize(cfg: Config, token: seq<Byte>) returns (res: seq<Lexeme>)
    ensures res == Lexemes(cfg, token)
  {
    res := LexizeOver(cfg, token, token);
  }

  /** Lexize as the source runs it: one iteration per byte of the token,
      advancing before each test, so the last test reads `follow`. */
  method LexizeAsWritten(cfg: Config, token: seq<Byte>, follow: Byte) returns (res: seq<Lexeme>)
    ensures res == LexemesAsWritten(cfg, token, follow)
  {
    res := LexizeOver(cfg, token, token + [follow]);
  }

  // ---------------------------------------------------------------------
  // properties of the split rule

  /** f is the first underscore after the first byte and l the last one, with
      at least one byte between them. */
  ghost predicate SplitAt(token: seq<Byte>, f: nat, l: nat) {
    1 <= f && f + 1 < l < |token| && token[f] == '_' && token[l] == '_' &&
    (forall k :: 1 <= k < f ==> token[k] != '_') &&
    (forall k :: l < k < |token| ==> token[k] != '_')
  }

  /** The loop finds exactly the split points SplitAt describes. */
  lemma SplitPointsIff(token: seq<Byte>, f: nat, l: nat)
    ensures SplitPoints(token) == Some((f, l)) <==> SplitAt(token, f, l)
  {
    if SplitAt(token, f, l) {
      var first := FirstUnderscore(token, |token|);
      var last := LastUnderscore(token, |token|);
      assert first == Some(f);
      assert last == Some(l);
    }
  }

  /** A token is returned unchanged, as the single variant-1 lexeme, exactly
      when it fails the gate or has no split points. */
  lemma LexemesUnchangedIff(cfg: Config, token: seq<Byte>)
    ensures Lexemes(cfg, token) == [Lexeme(token, 1)] <==>
            !Gate(token) || forall f, l :: !SplitAt(token, f, l)
  {
    if Gate(token) {
      match SplitPoints(token)
      case None =>
        forall f, l ensures !SplitAt(token, f, l) {
          SplitPointsIff(token, f, l);
        }
      case Some((f, l)) =>
        SplitPointsIff(token, f, l);
        var r := Lexemes(cfg, token);
        assert r[|r| - 1].nvariant == 2;
    }
  }

  /** On a split the lexemes are, in order: the full token (variant 1) if
      tokenize_full, the prefix before the first '_' (variant 2) if
      tokenize_prefix, and always the text strictly between the first and
      last '_' (variant 2). The prefix holds no '_', the middle is not empty,
      and no byte after the last '_' is emitted in a part. */
  lemma LexemesWhenSplit(cfg: Config, token: seq<Byte>, f: nat, l: nat)
    requires Gate(token) && SplitAt(token, f, l)
    ensures var r := Lexemes(cfg, token);
            r == (if cfg.tokenizeFull then [Lexeme(token, 1)] else []) +
                 (if cfg.tokenizePrefix then [Lexeme(token[..f], 2)] else []) +
                 [Lexeme(token[f + 1..l], 2)] &&
            |r| == 1 + (if cfg.tokenizeFull then 1 else 0) + (if cfg.tokenizePrefix then 1 else 0)
    ensures forall k :: 0 <= k < f ==> token[k] != '_'
    ensures 0 < |token[f + 1..l]|
    ensures forall x :: x in Lexemes(cfg, token) && x.nvariant == 2 ==>
              exists a, b :: 0 <= a <= b <= l && x.lexeme == token[a..b]
  {
    SplitPointsIff(token, f, l);
    var r := Lexemes(cfg, token);
    forall x | x in r && x.nvariant == 2
      ensures exists a, b :: 0 <= a <= b <= l && x.lexeme == token[a..b]
    {
      if x.lexeme == token[..f] {
        assert x.lexeme == token[0..f];
      } else {
        assert x.lexeme == token[f + 1..l];
      }
    }
  }

  const Fn: seq<Byte> := "fn"
  const Subtoken: seq<Byte> := "subtoken"
  const Junk: seq<Byte> := "junkatendofstringnotreturned"

  /** The example token of the source's documentation (40 bytes). */
  const Example: seq<Byte> := Fn + "_" + Subtoken + "_" + Junk

  lemma ExampleSplitsAtTwoAndEleven()
    ensures Gate(Example) && SplitAt(Example, 2, 11)
    ensures Example[..2] == Fn && Example[3..11] == Subtoken
  {
    assert Example[..2] == Fn;
    assert Example[3..11] == Subtoken;
    assert Example[12..] == Junk;
    assert forall k :: 0 <= k < |Junk| ==> Junk[k] != '_';
  }

  /** Both flags set: the full token, "fn", "subtoken". */
  lemma WorkedExampleBothFlags()
    ensures Lexemes(Config(true, true), Example)
         == [Lexeme(Example, 1), Lexeme(Fn, 2), Lexeme(Subtoken, 2)]
  {
    ExampleSplitsAtTwoAndEleven();
    LexemesWhenSplit(Config(true, true), Example, 2, 11);
  }

  /** Both flags clear: only "subtoken"; the text after the last '_' is never
      returned. */
  lemma WorkedExampleNoFlags()
    ensures Lexemes(Config(false, false), Example) == [Lexeme(Subtoken, 2)]
  {
    ExampleSplitsAtTwoAndEleven();
    LexemesWhenSplit(Config(false, false), Example, 2, 11);
  }

  // ---------------------------------------------------------------------
  // the loop as written reads one byte past the token

  /** Only the bytes below hi decide the underscores found below hi. */
  lemma {:induction false} UnderscoresDependOnPrefix(s: seq<Byte>, t: seq<Byte>, hi: nat)
    requires hi <= |s| && hi <= |t| && s[..hi] == t[..hi]
    ensures FirstUnderscore(s, hi) == FirstUnderscore(t, hi)
    ensures LastUnderscore(s, hi) == LastUnderscore(t, hi)
  {
    if hi > 1 {
      assert s[..hi - 1] == s[..hi][..hi - 1] && t[..hi - 1] == t[..hi][..hi - 1];
      assert s[hi - 1] == s[..hi][hi - 1] && t[hi - 1] == t[..hi][hi - 1];
      UnderscoresDependOnPrefix(s, t, hi - 1);
    }
  }

  /** The extra byte matters only when it is an underscore. */
  lemma AsWrittenAgreesUnlessUnderscoreFollows(cfg: Config, token: seq<Byte>, follow: Byte)
    requires follow != '_'
    ensures LexemesAsWritten(cfg, token, follow) == Lexemes(cfg, token)
  {
    var seen := token + [follow];
    assert seen[..|token|] == token[..|token|];
    UnderscoresDependOnPrefix(seen, token, |token|);
    if Gate(token) {
      assert FirstUnderscore(seen, |seen|) == FirstUnderscore(token, |token|);
      assert LastUnderscore(seen, |seen|) == LastUnderscore(token, |token|);
    }
  }

  const Letters: seq<Byte> := "abcdefghijklmnopq"

  /** A 20-byte token with a single underscore. */
  const OneUnderscore: seq<Byte> := Fn + "_" + Letters

  /** As written, an underscore just past the token acts as the last '_', so
      a token with one underscore is split; confined to the token, it is
      returned unchanged. */
  lemma AsWrittenSplitsOnFollowingUnderscore()
    ensures LexemesAsWritten(Config(false, false), OneUnderscore, '_') == [Lexeme(Letters, 2)]
    ensures Lexemes(Config(false, false), OneUnderscore) == [Lexeme(OneUnderscore, 1)]
  {
    var seen := OneUnderscore + ['_'];
    assert OneUnderscore[3..] == Letters;
    assert forall k :: 0 <= k < |Letters| ==> Letters[k] != '_';
    assert forall k :: 3 <= k < 20 ==> OneUnderscore[k] != '_';
    assert OneUnderscore[0] == 'f' && OneUnderscore[1] == 'n' && OneUnderscore[2] == '_';
    var last := LastUnderscore(OneUnderscore, 20);
    assert last == Some(2);
    assert seen[1] == 'n' && seen[2] == '_';
    var first := FirstUnderscore(seen, 21);
    assert first == Some(2);
    assert LastUnderscore(seen, 21) == Some(20);
    assert seen[..20] == OneUnderscore;
    assert SplitPoints(seen) == Some((2, 20));
    assert OneUnderscore[3..20] == Letters;
  }
}
