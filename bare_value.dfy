/**
 * The `__BARE_VALUE__` resolver of src/index.ts and what it is given: the
 * token grammar `^(.+)-(\d+)$`, `extractColorName`, the two key sets derived
 * once from the flattened palette, and the checks that decide whether a token
 * such as `red-123` is synthesised or left to ordinary lookup (None).
 */
module BareValue {
  import opened Wrappers
  import opened Decimal
  import opened ColorMix

  /** The characters a JavaScript `.` does not match. */
  predicate IsLineTerminator(c: char) {
    c == '\n' || c == '\r' || c == '\U{2028}' || c == '\U{2029}'
  }

  /** What the group `(.+)` accepts. */
  predicate ValidName(s: string) {
    s != [] && forall i | 0 <= i < |s| :: !IsLineTerminator(s[i])
  }

  /** The index of the last '-' in s, or -1. */
  function LastHyphen(s: string): (r: int)
    ensures -1 <= r < |s|
    ensures r >= 0 ==> s[r] == '-'
    ensures forall i | r < i < |s| :: s[i] != '-'
  {
    if s == [] then -1
    else if s[|s| - 1] == '-' then |s| - 1
    else LastHyphen(s[..|s| - 1])
  }

  /** The regular expression `^(.+)-(\d+)$`, stated directly: some '-' splits s into a name and a digit group. */
  ghost predicate MatchesGrammar(s: string) {
    exists i | 0 < i < |s| :: s[i] == '-' && ValidName(s[..i]) && s[i + 1..] != [] && AllDigits(s[i + 1..])
  }

  /**
   * `s.match(/^(.+)-(\d+)$/)` as the pair of its two groups. A digit group
   * holds no '-', so the only place the match can split is the last hyphen.
   */
  function SplitToken(s: string): (r: Option<(string, string)>)
    ensures r.Some? ==> s == r.value.0 + "-" + r.value.1
    ensures r.Some? ==> ValidName(r.value.0) && r.value.1 != [] && AllDigits(r.value.1)
  {
    var h := LastHyphen(s);
    if h < 1 then None
    else
      var name, digits := s[..h], s[h + 1..];
      if ValidName(name) && digits != [] && AllDigits(digits) then Some((name, digits)) else None
  }

  /** Every name and digit group the grammar allows is split back out exactly. */
  lemma SplitTokenComplete(name: string, digits: string)
    requires ValidName(name) && digits != [] && AllDigits(digits)
    ensures SplitToken(name + "-" + digits) == Some((name, digits))
  {
    var s := name + "-" + digits;
    var h := LastHyphen(s);
    assert s[|name|] == '-';
    forall i | |name| < i < |s| ensures s[i] != '-' {
      assert s[i] == digits[i - |name| - 1];
    }
    assert h == |name|;
    assert s[..h] == name;
    assert s[h + 1..] == digits;
  }

  /** SplitToken succeeds exactly on the strings the regular expression matches. */
  lemma SplitTokenMatchesGrammar(s: string)
    ensures SplitToken(s).Some? <==> MatchesGrammar(s)
  {
    if SplitToken(s).Some? {
      var h := LastHyphen(s);
      assert s[..h] == SplitToken(s).value.0;
    }
    if MatchesGrammar(s) {
      var i :| 0 < i < |s| && s[i] == '-' && ValidName(s[..i]) && s[i + 1..] != [] && AllDigits(s[i + 1..]);
      assert s == s[..i] + "-" + s[i + 1..];
      SplitTokenComplete(s[..i], s[i + 1..]);
    }
  }

  /** extractColorName: the part before a trailing `-<digits>`, or the key itself. */
  function ExtractColorName(value: string): (r: string)
    ensures r == value <==> SplitToken(value).None?
    ensures r != value ==>
      && ValidName(r) && |r| + 1 < |value|
      && value[..|r|] == r && value[|r|] == '-' && AllDigits(value[|r| + 1..])
  {
    match SplitToken(value)
    case Some((name, _)) => name
    case None => value
  }

  /** A stop key `name-digits` gives its family name. */
  lemma ExtractColorNameOfStop(name: string, digits: string)
    requires ValidName(name) && digits != [] && AllDigits(digits)
    ensures ExtractColorName(name + "-" + digits) == name
  {
    SplitTokenComplete(name, digits);
  }

  /** Keys without a digit suffix are kept: `red` names the family `red`. */
  lemma ExtractColorNameExamples()
    ensures ExtractColorName("red") == "red"
    ensures ExtractColorName("red-500") == "red"
    ensures ExtractColorName("light-blue-50") == "light-blue"
  {
    assert LastHyphen("red") == -1 by {
      assert forall i | 0 <= i < 3 :: "red"[i] != '-';
    }
    assert "red" + "-" + "500" == "red-500";
    ExtractColorNameOfStop("red", "500");
    assert "light-blue" + "-" + "50" == "light-blue-50";
    ExtractColorNameOfStop("light-blue", "50");
  }

  /**
   * allColorKeysSet and defaultColorKeys, derived once from the flattened
   * palette and read-only afterwards.
   */
  datatype KeySets = KeySets(defined: set<string>, known: set<string>)

  function DeriveKeySets(flat: map<string, string>): (r: KeySets)
    ensures r.defined == flat.Keys
    ensures forall k | k in flat :: ExtractColorName(k) in r.known
    ensures forall c | c in r.known :: exists k | k in flat :: ExtractColorName(k) == c
  {
    KeySets(flat.Keys, set k | k in flat :: ExtractColorName(k))
  }

  /** Every known family is a palette key itself or the prefix of a `-<digits>` palette key. */
  lemma KnownFamilyInPalette(flat: map<string, string>, c: string)
    requires c in DeriveKeySets(flat).known
    ensures c in flat || exists k | k in flat ::
      |c| + 1 < |k| && k[..|c|] == c && k[|c|] == '-' && AllDigits(k[|c| + 1..])
  {
    var k :| k in flat && ExtractColorName(k) == c;
  }

  /** A palette stop key `name-digits` makes `name` a known family. */
  lemma StopKeyMakesFamilyKnown(flat: map<string, string>, name: string, digits: string)
    requires ValidName(name) && digits != [] && AllDigits(digits)
    requires name + "-" + digits in flat
    ensures name in DeriveKeySets(flat).known
  {
    ExtractColorNameOfStop(name, digits);
  }

  /**
   * The `__BARE_VALUE__` callback. Each None is one of the source's early
   * `return undefined`s, in the source's order.
   */
  function Resolve(keys: KeySets, token: string): (r: Option<Expr>)
    ensures token in keys.defined ==> r.None?
    ensures r.Some? ==> r.value.color in keys.known
  {
    match SplitToken(token)
    case None => None
    case Some((color, digits)) =>
      if digits[0] == '0' && |digits| > 1 then None
      else if token in keys.defined then None
      else if color !in keys.known then None
      else
        var scale := Value(digits);
        if scale > 1000 then None
        else Some(GenerateColorMix(color, scale))
  }

  /**
   * What an accepted token is: a valid name, '-', and the canonical decimal
   * text of a scale in 0..1000, naming a known family and not a defined key;
   * its value is the generated expression for that family and scale.
   */
  lemma ResolveSound(keys: KeySets, token: string) returns (name: string, scale: nat)
    requires Resolve(keys, token).Some?
    ensures ValidName(name) && token == name + "-" + ToDecimal(scale)
    ensures token !in keys.defined && name in keys.known && scale <= 1000
    ensures Resolve(keys, token) == Some(GenerateColorMix(name, scale))
  {
    var parts := SplitToken(token).value;
    name, scale := parts.0, Value(parts.1);
    ToDecimalOfValue(parts.1);
  }

  /** Conversely every such token is accepted. */
  lemma ResolveComplete(keys: KeySets, name: string, scale: nat)
    requires ValidName(name) && name in keys.known && scale <= 1000
    requires name + "-" + ToDecimal(scale) !in keys.defined
    ensures Resolve(keys, name + "-" + ToDecimal(scale)) == Some(GenerateColorMix(name, scale))
  {
    SplitTokenComplete(name, ToDecimal(scale));
    ValueOfToDecimal(scale);
  }

  /** Rejection 1: a token the grammar does not match. */
  lemma ResolveRejectsMalformed(keys: KeySets, token: string)
    requires !MatchesGrammar(token)
    ensures Resolve(keys, token) == None
  {
    SplitTokenMatchesGrammar(token);
  }

  /** Rejection 2: a digit group of two or more digits that starts with '0' (`red-011`). */
  lemma ResolveRejectsLeadingZero(keys: KeySets, name: string, digits: string)
    requires ValidName(name) && AllDigits(digits) && |digits| > 1 && digits[0] == '0'
    ensures Resolve(keys, name + "-" + digits) == None
  {
    SplitTokenComplete(name, digits);
  }

  /** Rejection 4: a family the palette does not name (`bogus-500`). */
  lemma ResolveRejectsUnknownColor(keys: KeySets, name: string, digits: string)
    requires ValidName(name) && digits != [] && AllDigits(digits) && name !in keys.known
    ensures Resolve(keys, name + "-" + digits) == None
  {
    SplitTokenComplete(name, digits);
  }

  /** Rejection 5: a scale above 1000 (`red-1001`). */
  lemma ResolveRejectsOutOfRange(keys: KeySets, name: string, digits: string)
    requires ValidName(name) && digits != [] && AllDigits(digits) && Value(digits) > 1000
    ensures Resolve(keys, name + "-" + digits) == None
  {
    SplitTokenComplete(name, digits);
  }

  /**
   * Against a palette: a family that has some stop key extends to every
   * scale in 0..1000 the palette does not define itself, and every defined
   * key is left to ordinary lookup.
   */
  lemma ResolveAgainstPalette(flat: map<string, string>, name: string, digits: string, scale: nat)
    requires ValidName(name) && digits != [] && AllDigits(digits) && name + "-" + digits in flat
    requires scale <= 1000
    ensures var token := name + "-" + ToDecimal(scale);
      Resolve(DeriveKeySets(flat), token)
        == if token in flat then None else Some(GenerateColorMix(name, scale))
  {
    StopKeyMakesFamilyKnown(flat, name, digits);
    if name + "-" + ToDecimal(scale) !in flat {
      ResolveComplete(DeriveKeySets(flat), name, scale);
    }
  }

  /** The rejections named in the resolver's comments, on a palette that defines red-50 and red-500. */
  lemma RejectionExamples()
    ensures var keys := KeySets({"red-50", "red-500"}, {"red"});
      && Resolve(keys, "red-011") == None
      && Resolve(keys, "bogus-500") == None
      && Resolve(keys, "red-1001") == None
      && Resolve(keys, "red-50") == None
  {
    var keys := KeySets({"red-50", "red-500"}, {"red"});
    assert ToDecimal(1001) == "1001";
    ValueOfToDecimal(1001);
    assert "red" + "-" + "011" == "red-011" && "red" + "-" + "1001" == "red-1001";
    assert "bogus" + "-" + "500" == "bogus-500";
    ResolveRejectsLeadingZero(keys, "red", "011");
    ResolveRejectsUnknownColor(keys, "bogus", "500");
    ResolveRejectsOutOfRange(keys, "red", "1001");
  }

  // Accepted tokens on the same palette, one per branch of generateColorMix.

  /** red-0: scale 0: stop 50 at 0%, against white. */
  lemma ResolvesRed0(keys: KeySets)
    requires keys == KeySets({"red-50", "red-500"}, {"red"})
    ensures Resolve(keys, "red-0") == Some(MixWhite("red", 0))
  {
    assert ToDecimal(0) == "0";
    AcceptedExample(keys, 0, "red-0");
  }

  /** red-25: `color-mix(in oklch,var(--color-red-50) 50%,white)`. */
  lemma ResolvesRed25(keys: KeySets)
    requires keys == KeySets({"red-50", "red-500"}, {"red"})
    ensures Resolve(keys, "red-25") == Some(MixWhite("red", 50))
  {
    assert ToDecimal(25) == "25";
    AcceptedExample(keys, 25, "red-25");
  }

  /** red-75: `color-mix(in oklch,var(--color-red-100) 50%,var(--color-red-50))`, the doubling rule. */
  lemma ResolvesRed75(keys: KeySets)
    requires keys == KeySets({"red-50", "red-500"}, {"red"})
    ensures Resolve(keys, "red-75") == Some(Mix("red", 100, 50, 50))
  {
    assert ToDecimal(75) == "75";
    AcceptedExample(keys, 75, "red-75");
    BetweenStops("red", 75, 1);
  }

  /** red-123: `color-mix(in oklch,var(--color-red-200) 23%,var(--color-red-100))`. */
  lemma ResolvesRed123(keys: KeySets)
    requires keys == KeySets({"red-50", "red-500"}, {"red"})
    ensures Resolve(keys, "red-123") == Some(Mix("red", 200, 23, 100))
  {
    assert ToDecimal(123) == "123";
    AcceptedExample(keys, 123, "red-123");
    BetweenStops("red", 123, 2);
    var r := GenerateColorMix("red", 123);
    assert r.Mix? && r.upper == 200 && r.lower == 100 && r.weight * 100 == 2300;
    assert r == Mix("red", 200, 23, 100);
  }

  /** red-975: `color-mix(in oklch,black 50%,var(--color-red-950))`. */
  lemma ResolvesRed975(keys: KeySets)
    requires keys == KeySets({"red-50", "red-500"}, {"red"})
    ensures Resolve(keys, "red-975") == Some(MixBlack("red", 50))
  {
    assert ToDecimal(975) == "975";
    AcceptedExample(keys, 975, "red-975");
  }

  lemma AcceptedExample(keys: KeySets, scale: nat, token: string)
    requires keys == KeySets({"red-50", "red-500"}, {"red"})
    requires scale <= 1000 && token == "red-" + ToDecimal(scale) && token !in keys.defined
    ensures Resolve(keys, token) == Some(GenerateColorMix("red", scale))
  {
    assert "red-" + ToDecimal(scale) == "red" + "-" + ToDecimal(scale);
    ResolveComplete(keys, "red", scale);
  }
}
