/** The node configuration and its INI text. */
module ConfigIni {
  import opened Basics
  import opened Ini
  import opened Text

  const SALT_SIZE := 32
  const MAX_LEGACY_SALTS := 2
  const DEFAULT_HORIZON_DAYS := 180
  const DEFAULT_TOPIC := "dacar.policy.v1"

  type Salt = b: Bytes | |b| == SALT_SIZE witness seq(SALT_SIZE, _ => 0)

  /** A 32-bit C++ int. */
  type Int32 = n: int | -0x8000_0000 <= n < 0x8000_0000

  datatype Config = Config(
    primarySalt: Salt, legacySalts: seq<Salt>, anchors: seq<Hash16>, authoritative: Option<Hash16>,
    horizonDays: Int32, topic: string, node: Option<Hash16>, proprietor: Option<Hash16>)

  datatype ConfigError = BadHex(what: string) | BadInteger

  // ---- Encoding --------------------------------------------------------------------

  function IntText(n: int): string {
    if n < 0 then ['-'] + Digits(-n) else Digits(n)
  }

  function HexList(hashes: seq<Hash16>): string {
    if hashes == [] then ""
    else if |hashes| == 1 then ToHex(hashes[0])
    else ToHex(hashes[0]) + [','] + ([' '] + HexList(hashes[1..]))
  }

  /** The joined list, built by appending. */
  method JoinHashes(hashes: seq<Hash16>) returns (text: string)
    ensures text == HexList(hashes)
  {
    text := "";
    for i := 0 to |hashes|
      invariant text == "" <==> i == 0
      invariant HexList(hashes) == if i == 0 then HexList(hashes)
                                   else if i < |hashes| then text + [','] + ([' '] + HexList(hashes[i..])) else text
    {
      hide ToHex;
      assert hashes[i..][1..] == hashes[i + 1..];
      if text != "" {
        text := text + [',', ' '];
      }
      text := text + ToHex(hashes[i]);
    }
  }

  function HexOption(key: string, hash: Option<Bytes>): seq<(string, string)> {
    if hash.Some? then [(key, ToHex(hash.value))] else []
  }

  function Nth(salts: seq<Salt>, i: nat): (salt: Option<Bytes>)
    ensures salt.Some? ==> |salt.value| == SALT_SIZE
  {
    if i < |salts| then Some(salts[i]) else None
  }

  function SaltOptions(c: Config): seq<(string, string)> {
    [("primary", ToHex(c.primarySalt))]
    + HexOption("legacy0", Nth(c.legacySalts, 0)) + HexOption("legacy1", Nth(c.legacySalts, 1))
  }

  function TrustOptions(c: Config): seq<(string, string)> {
    [("anchors", HexList(c.anchors))] + HexOption("authoritative", c.authoritative)
  }

  function PolicyOptions(c: Config): seq<(string, string)> {
    [("deletion_horizon_days", IntText(c.horizonDays))]
  }

  function RfedOptions(c: Config): seq<(string, string)> {
    [("topic", c.topic)] + HexOption("node", c.node)
  }

  function LxmfOptions(c: Config): seq<(string, string)> { HexOption("proprietor", c.proprietor) }

  /** Legacy salts past the second are not written; [lxmf] is written only with a
      proprietor. */
  function SectionsOf(c: Config): seq<Section> {
    [Section("salt", SaltOptions(c)), Section("trust", TrustOptions(c)), Section("policy", PolicyOptions(c)),
     Section("rfed", RfedOptions(c))]
    + if c.proprietor.Some? then [Section("lxmf", LxmfOptions(c))] else []
  }

  function Encode(c: Config): string { Printed(SectionsOf(c)) }

  // ---- Decoding --------------------------------------------------------------------

  /** Exactly `size` bytes of hexadecimal, an optional 0x in front. */
  function ParseHex(value: string, size: nat, what: string): (r: Result<Bytes, ConfigError>)
    ensures r.Ok? ==> |r.value| == size
  {
    var trimmed := Trim(value);
    var digits := if |trimmed| >= 2 && trimmed[0] == '0' && (trimmed[1] == 'x' || trimmed[1] == 'X')
                  then trimmed[2..] else trimmed;
    var bytes := FromHex(digits);
    if bytes.None? || |bytes.value| != size then Err(BadHex(what)) else Ok(bytes.value)
  }

  function ParseOptional(value: Option<string>, size: nat, what: string): (r: Result<Option<Bytes>, ConfigError>)
    ensures r.Ok? && r.value.Some? ==> |r.value.value| == size
  {
    if value.None? then Ok(None)
    else
      var bytes :- ParseHex(value.value, size, what);
      Ok(Some(bytes))
  }

  /** Blank items are skipped. */
  function ParseHashes(items: seq<string>): Result<seq<Hash16>, ConfigError> {
    if items == [] then Ok([])
    else if Trim(items[0]) == "" then ParseHashes(items[1..])
    else
      var first :- ParseHex(Trim(items[0]), HASH_SIZE, "anchors");
      var rest :- ParseHashes(items[1..]);
      Ok([first] + rest)
  }

  ghost predicate Gives(item: string, hash: Hash16) {
    Trim(item) != "" && ParseHex(Trim(item), HASH_SIZE, "anchors") == Ok(hash)
  }

  /** The list is read exactly when every item that is not blank is a hash, and it then holds
      those hashes. */
  ghost predicate IsReading(items: seq<string>, r: Result<seq<Hash16>, ConfigError>) {
    && (r.Ok? <==> forall item :: item in items && Trim(item) != "" ==> exists hash :: Gives(item, hash))
    && (r.Ok? ==> forall hash :: hash in r.value <==> exists item :: item in items && Gives(item, hash))
  }

  lemma {:induction false} HashesExactly(items: seq<string>)
    ensures IsReading(items, ParseHashes(items))
  {
    if items != [] {
      HashesExactly(items[1..]);
      hide Trim, ParseHex;
      assert forall item :: item in items <==> item == items[0] || item in items[1..];
      var first := ParseHex(Trim(items[0]), HASH_SIZE, "anchors");
      assert first.Ok? && Trim(items[0]) != "" ==> Gives(items[0], first.value);
      if ParseHashes(items).Ok? {
        var rest := ParseHashes(items[1..]).value;
        assert forall hash :: hash in ParseHashes(items).value <==> Gives(items[0], hash) || hash in rest;
      }
    }
  }

  /** Going through the comma-separated items; the first bad one decides. */
  method ParseAnchors(list: string) returns (r: Result<seq<Hash16>, ConfigError>)
    ensures r == ParseHashes(Split(list, ','))
    ensures IsReading(Split(list, ','), r)
  {
    HashesExactly(Split(list, ','));
    hide Trim, ParseHex, Split, IsReading;
    var items := Split(list, ',');
    var anchors: seq<Hash16> := [];
    ghost var all := ParseHashes(items);
    assert items[0..] == items && (all.Ok? ==> [] + all.value == all.value);
    for n := 0 to |items|
      invariant ParseHashes(items) == After(anchors, ParseHashes(items[n..]))
    {
      var item := Trim(items[n]);
      assert items[n..][0] == items[n] && items[n..][1..] == items[n + 1..];
      if item != "" {
        var hash := ParseHex(item, HASH_SIZE, "anchors");
        if hash.Err? {
          return Err(hash.error);
        }
        var rest := ParseHashes(items[n + 1..]);
        assert rest.Ok? ==> anchors + ([hash.value] + rest.value) == anchors + [hash.value] + rest.value;
        anchors := anchors + [hash.value];
      }
    }
    assert items[|items|..] == [] && anchors + [] == anchors;
    return Ok(anchors);
  }

  function After(front: seq<Hash16>, rest: Result<seq<Hash16>, ConfigError>): Result<seq<Hash16>, ConfigError> {
    if rest.Err? then rest else Ok(front + rest.value)
  }

  /** Conversion of a 64-bit long to a 32-bit int keeps the low 32 bits. */
  function ToInt32(n: int): Int32 {
    (n + 0x8000_0000) % 0x1_0000_0000 - 0x8000_0000
  }

  /** strtol in base ten, refusing an empty number, trailing text and values outside a
      64-bit long. */
  function ParseNumber(s: string): Result<Int32, ConfigError> {
    var signed := s != "" && (s[0] == '-' || s[0] == '+');
    var digits := if signed then s[1..] else s;
    var n := FromDigits(digits);
    if digits == "" || n.None? then Err(BadInteger)
    else
      var number := if signed && s[0] == '-' then 0 - n.value else n.value;
      if -0x8000_0000_0000_0000 <= number < 0x8000_0000_0000_0000 then Ok(ToInt32(number)) else Err(BadInteger)
  }

  /** A C string ends at its first NUL. */
  function ParseInt(value: string): Result<Int32, ConfigError> {
    var trimmed := Trim(value);
    ParseNumber(trimmed[..Find(trimmed, c => c == '\0')])
  }

  function PrimaryOf(value: Option<string>): (r: Result<Bytes, ConfigError>)
    ensures r.Ok? ==> |r.value| == SALT_SIZE
  {
    if value.None? then Ok(seq(SALT_SIZE, _ => 0)) else ParseHex(value.value, SALT_SIZE, "primary")
  }

  function AnchorsOf(value: Option<string>): Result<seq<Hash16>, ConfigError> {
    if value.None? then Ok([]) else ParseHashes(Split(Trim(value.value), ','))
  }

  function HorizonOf(value: Option<string>): Result<Int32, ConfigError> {
    if value.None? then Ok(DEFAULT_HORIZON_DAYS) else ParseInt(value.value)
  }

  function TopicOf(value: Option<string>): string {
    if value.None? then DEFAULT_TOPIC else Trim(value.value)
  }

  function Present(salt: Option<Bytes>): seq<Bytes> { if salt.Some? then [salt.value] else [] }

  function FromSections(s: seq<Section>): Result<Config, ConfigError> {
    var primary :- PrimaryOf(Get(s, "salt", "primary"));
    var legacy0 :- ParseOptional(Get(s, "salt", "legacy0"), SALT_SIZE, "legacy0");
    var legacy1 :- ParseOptional(Get(s, "salt", "legacy1"), SALT_SIZE, "legacy1");
    var anchors :- AnchorsOf(Get(s, "trust", "anchors"));
    var authoritative :- ParseOptional(Get(s, "trust", "authoritative"), HASH_SIZE, "authoritative");
    var horizon :- HorizonOf(Get(s, "policy", "deletion_horizon_days"));
    var node :- ParseOptional(Get(s, "rfed", "node"), HASH_SIZE, "node");
    var proprietor :- ParseOptional(Get(s, "lxmf", "proprietor"), HASH_SIZE, "proprietor");
    Ok(Config(primary, Present(legacy0) + Present(legacy1), anchors, authoritative, horizon,
              TopicOf(Get(s, "rfed", "topic")), node, proprietor))
  }

  function Decode(text: string): Result<Config, ConfigError> { FromSections(Parsed(text)) }

  /** Sections that set nothing. */
  ghost predicate Silent(s: seq<Section>) { forall name, key :: Get(s, name, key) == None }

  lemma EmptyIsSilent()
    ensures Silent(Parsed(""))
  {
    assert Split("", '\n') == [""] && [""][1..] == [] && Trim("") == "";
    assert Parsed("") == TakeLines(TakeLine([], ""), []) == [];
  }

  /** A text that sets nothing, the empty one among them, means the shipped defaults: the
      all-zero salt, 180 days, the shared topic, and no anchor or party. */
  lemma SilenceMeansDefaults(text: string)
    requires text == "" || Silent(Parsed(text))
    ensures Decode(text) == Ok(Config(seq(32, _ => 0), [], [], None, 180, "dacar.policy.v1", None, None))
  {
    EmptyIsSilent();
    DefaultsOf(Parsed(text));
  }

  lemma DefaultsOf(s: seq<Section>)
    requires Silent(s)
    ensures FromSections(s) == Ok(Config(seq(32, _ => 0), [], [], None, 180, "dacar.policy.v1", None, None))
  {
    assert Get(s, "salt", "primary") == Get(s, "salt", "legacy0") == Get(s, "salt", "legacy1") == None;
    assert Get(s, "trust", "anchors") == Get(s, "trust", "authoritative") == None;
    assert Get(s, "policy", "deletion_horizon_days") == Get(s, "rfed", "topic") == None;
    assert Get(s, "rfed", "node") == Get(s, "lxmf", "proprietor") == None;
    hide Get, Silent, ParseHex, Trim;
    assert PrimaryOf(None).value == seq(32, _ => 0) && Present(None) + Present(None) == [];
  }

  // ---- Values read back ------------------------------------------------------------

  lemma {:induction false} NumberBack(n: int)
    requires -0x8000_0000 <= n < 0x8000_0000
    ensures ParseNumber(IntText(n)) == Ok(n)
    ensures IsValue(IntText(n)) && '\0' !in IntText(n)
  {
    hide FromDigits, Digits;
    if n < 0 {
      DigitsBack(0 - n);
      assert IntText(n)[1..] == Digits(0 - n);
    } else {
      DigitsBack(n);
    }
  }

  lemma {:induction false} IntBack(n: Int32)
    ensures ParseInt(IntText(n)) == Ok(n) && IsValue(IntText(n))
  {
    var s := IntText(n);
    NumberBack(n);
    TrimmedStays(s);
    hide ParseNumber, IntText, Trim, Find;
    var z := Find(s, c => c == '\0');
    assert s[..|s|] == s;
  }

  lemma {:induction false} HexValue(b: Bytes, what: string)
    ensures ParseHex(ToHex(b), |b|, what) == Ok(b) && IsValue(ToHex(b))
  {
    var s := ToHex(b);
    HexBack(b);
    hide ToHex, FromHex, Trim;
    assert IsValue(s);
    TrimmedStays(s);
    assert |s| >= 2 ==> IsHexChar(s[1]);
  }

  lemma JoinedValue(first: string, rest: string)
    requires IsValue(first) && IsValue(rest) && first != "" && rest != ""
    ensures IsValue(first + [','] + ([' '] + rest))
  {
    var s := first + [','] + ([' '] + rest);
    assert s[0] == first[0] && s[|s| - 1] == rest[|rest| - 1];
  }

  lemma {:induction false} HexListValue(hashes: seq<Hash16>)
    ensures IsValue(HexList(hashes))
    ensures hashes != [] ==> HexList(hashes) != ""
  {
    if hashes != [] {
      hide IsValue, ToHex;
      HexValue(hashes[0], "anchors");
      HexListValue(hashes[1..]);
      if |hashes| > 1 {
        JoinedValue(ToHex(hashes[0]), HexList(hashes[1..]));
      }
    } else {
      assert HexList(hashes) == "";
    }
  }

  lemma {:induction false} ItemsSplit(pad: string, hashes: seq<Hash16>)
    requires hashes != [] && ',' !in pad + ToHex(hashes[0])
    ensures Split(pad + HexList(hashes), ',')
         == [pad + ToHex(hashes[0])] + if |hashes| == 1 then [] else Split([' '] + HexList(hashes[1..]), ',')
  {
    hide ToHex, Split;
    var item, tail := pad + ToHex(hashes[0]), [' '] + HexList(hashes[1..]);
    if |hashes| == 1 {
      SplitNone(item, ',');
      assert [item] + [] == [item];
    } else {
      SplitOff(item, tail, ',');
      assert pad + HexList(hashes) == item + [','] + tail;
    }
  }

  /** The items after the first have a space in front. */
  lemma {:induction false} ItemsBack(pad: string, hashes: seq<Hash16>)
    requires hashes != [] && (pad == "" || pad == [' '])
    ensures ParseHashes(Split(pad + HexList(hashes), ',')) == Ok(hashes)
    decreases |hashes|
  {
    assert ParseHashes([]) == Ok([]);
    hide Trim, ToHex, Split, ParseHashes, HexList;
    var item, rest := pad + ToHex(hashes[0]), hashes[1..];
    ItemFacts(pad, hashes[0]);
    ItemsSplit(pad, hashes);
    if rest != [] {
      ItemsBack([' '], rest);
    }
    ItemStep(item, if rest == [] then [] else Split([' '] + HexList(rest), ','), hashes[0], rest);
    assert hashes == [hashes[0]] + rest;
  }

  lemma ItemFacts(pad: string, hash: Hash16)
    requires pad == "" || pad == [' ']
    ensures Trim(pad + ToHex(hash)) == ToHex(hash) && ',' !in pad + ToHex(hash)
  {
    HexBack(hash);
    hide ToHex, Trim;
    TrimmedStays(ToHex(hash));
    assert "" + ToHex(hash) == ToHex(hash);
  }

  lemma {:induction false} ItemStep(item: string, items: seq<string>, hash: Hash16, hashes: seq<Hash16>)
    requires Trim(item) == ToHex(hash) && ParseHashes(items) == Ok(hashes)
    ensures ParseHashes([item] + items) == Ok([hash] + hashes)
  {
    HexValue(hash, "anchors");
    hide Trim;
    TrimmedStays(ToHex(hash));
    assert ([item] + items)[1..] == items;
  }

  lemma {:induction false} AnchorsBack(hashes: seq<Hash16>)
    ensures AnchorsOf(Some(HexList(hashes))) == Ok(hashes)
  {
    HexListValue(hashes);
    TrimmedStays(HexList(hashes));
    if hashes == [] {
      assert Split("", ',') == [""] && ParseHashes([""]) == ParseHashes([]);
    } else {
      assert "" + HexList(hashes) == HexList(hashes);
      ItemsBack("", hashes);
    }
  }

  // ---- Sections of a configuration -------------------------------------------------

  ghost predicate Proper(options: seq<(string, string)>) {
    forall o :: o in options ==> ProperOption(o)
  }

  lemma ProperPlus(key: string, value: string, more: seq<(string, string)>)
    requires IsKey(key) && IsValue(value) && Proper(more)
    ensures Proper([(key, value)] + more)
  {}

  lemma HexOptionProper(key: string, hash: Option<Bytes>)
    requires IsKey(key)
    ensures Proper(HexOption(key, hash))
  {
    if hash.Some? {
      HexValue(hash.value, key);
    }
  }

  lemma SaltKeys()
    ensures IsKey("primary") && IsKey("legacy0") && IsKey("legacy1")
  {}

  lemma OtherKeys()
    ensures IsKey("anchors") && IsKey("authoritative") && IsKey("topic") && IsKey("node") && IsKey("proprietor")
  {}

  lemma HorizonKey()
    ensures IsKey("deletion_horizon_days")
  {}

  lemma Names()
    ensures IsKey("salt") && IsKey("trust") && IsKey("policy") && IsKey("rfed") && IsKey("lxmf")
  {}

  lemma SaltProper(c: Config)
    ensures Proper(SaltOptions(c))
  {
    hide ToHex, HexOption, IsValue, IsKey;
    SaltKeys();
    HexValue(c.primarySalt, "primary");
    HexOptionProper("legacy0", Nth(c.legacySalts, 0));
    HexOptionProper("legacy1", Nth(c.legacySalts, 1));
    ProperPlus("primary", ToHex(c.primarySalt), HexOption("legacy0", Nth(c.legacySalts, 0)));
  }

  lemma TrustProper(c: Config)
    ensures Proper(TrustOptions(c))
  {
    hide HexOption, HexList, IsValue, IsKey, Proper;
    OtherKeys();
    HexListValue(c.anchors);
    HexOptionProper("authoritative", c.authoritative);
    ProperPlus("anchors", HexList(c.anchors), HexOption("authoritative", c.authoritative));
  }

  lemma PolicyProper(c: Config)
    ensures Proper(PolicyOptions(c))
  {
    hide IntText, IsValue, IsKey, ParseInt;
    HorizonKey();
    IntBack(c.horizonDays);
  }

  lemma RfedProper(c: Config)
    requires IsValue(c.topic)
    ensures Proper(RfedOptions(c))
  {
    hide HexOption, IsValue, IsKey, Proper;
    OtherKeys();
    HexOptionProper("node", c.node);
    ProperPlus("topic", c.topic, HexOption("node", c.node));
  }

  lemma LxmfIs(c: Config)
    ensures LxmfOptions(c) == HexOption("proprietor", c.proprietor)
  {}

  lemma SectionsProper(c: Config)
    requires IsValue(c.topic)
    ensures forall s :: s in SectionsOf(c) ==> ProperSection(s)
  {
    hide ProperOption, SaltOptions, TrustOptions, PolicyOptions, RfedOptions, LxmfOptions, IsValue, IsKey;
    Names();
    OtherKeys();
    SaltProper(c);
    TrustProper(c);
    PolicyProper(c);
    RfedProper(c);
    HexOptionProper("proprietor", c.proprietor);
    LxmfIs(c);
  }

  lemma NamesDiffer(c: Config)
    ensures DistinctNames(SectionsOf(c))
    ensures c.proprietor.None? ==> forall s :: s in SectionsOf(c) ==> s.name != "lxmf"
  {
    hide SaltOptions, TrustOptions, PolicyOptions, RfedOptions, LxmfOptions;
    assert "salt"[0] == 's' && "rfed"[0] == 'r' && "lxmf"[0] == 'l';
  }

  /** Looking an option up in the sections finds what its section says. */
  lemma Lookups(c: Config, key: string)
    ensures Get(SectionsOf(c), "salt", key) == OptionValue(SaltOptions(c), key)
    ensures Get(SectionsOf(c), "trust", key) == OptionValue(TrustOptions(c), key)
    ensures Get(SectionsOf(c), "policy", key) == OptionValue(PolicyOptions(c), key)
    ensures Get(SectionsOf(c), "rfed", key) == OptionValue(RfedOptions(c), key)
    ensures Get(SectionsOf(c), "lxmf", key) == if c.proprietor.Some? then OptionValue(LxmfOptions(c), key) else None
  {
    hide SaltOptions, TrustOptions, PolicyOptions, RfedOptions, LxmfOptions, OptionValue, Get, DistinctNames;
    var s := SectionsOf(c);
    NamesDiffer(c);
    GetAt(s, 0, key);
    GetAt(s, 1, key);
    GetAt(s, 2, key);
    GetAt(s, 3, key);
    if c.proprietor.Some? {
      GetAt(s, 4, key);
    } else {
      GetNone(s, "lxmf", key);
    }
  }

  lemma OptionStep(head: (string, string), rest: seq<(string, string)>, key: string)
    ensures OptionValue([head] + rest, key) == if head.0 == key then Some(head.1) else OptionValue(rest, key)
  {
    assert ([head] + rest)[1..] == rest;
  }

  lemma HexOptionValue(key: string, hash: Option<Bytes>)
    ensures OptionValue(HexOption(key, hash), key) == HexIn(hash)
  {}

  lemma OptionalBack(hash: Option<Bytes>, size: nat, what: string)
    requires hash.Some? ==> |hash.value| == size
    ensures ParseOptional(HexIn(hash), size, what) == Ok(hash)
  {
    if hash.Some? {
      HexValue(hash.value, what);
    }
  }

  /** Options named otherwise are looked past. */
  lemma HexOptionAside(key: string, hash: Option<Bytes>, rest: seq<(string, string)>, other: string)
    requires key != other
    ensures OptionValue(HexOption(key, hash) + rest, other) == OptionValue(rest, other)
  {
    if hash.Some? {
      OptionStep((key, ToHex(hash.value)), rest, other);
    } else {
      assert HexOption(key, hash) + rest == rest;
    }
  }

  lemma HexOptionFirst(key: string, hash: Option<Bytes>, rest: seq<(string, string)>)
    requires OptionValue(rest, key) == None
    ensures OptionValue(HexOption(key, hash) + rest, key) == HexIn(hash)
  {
    if hash.Some? {
      OptionStep((key, ToHex(hash.value)), rest, key);
    } else {
      assert HexOption(key, hash) + rest == rest;
    }
  }

  function HexIn(hash: Option<Bytes>): Option<string> { if hash.Some? then Some(ToHex(hash.value)) else None }

  lemma SaltLookups(c: Config)
    ensures OptionValue(SaltOptions(c), "primary") == Some(ToHex(c.primarySalt))
    ensures OptionValue(SaltOptions(c), "legacy0") == HexIn(Nth(c.legacySalts, 0))
    ensures OptionValue(SaltOptions(c), "legacy1") == HexIn(Nth(c.legacySalts, 1))
  {
    hide ToHex, OptionValue, HexOption, Nth;
    var first, second := HexOption("legacy0", Nth(c.legacySalts, 0)), HexOption("legacy1", Nth(c.legacySalts, 1));
    var primary := ("primary", ToHex(c.primarySalt));
    assert SaltOptions(c) == [primary] + (first + second);
    assert "legacy0"[6] != "legacy1"[6];
    OptionStep(primary, first + second, "primary");
    OptionStep(primary, first + second, "legacy0");
    OptionStep(primary, first + second, "legacy1");
    assert "primary"[0] != "legacy0"[0] && "primary"[0] != "legacy1"[0];
    LegacyAside(Nth(c.legacySalts, 1));
    HexOptionFirst("legacy0", Nth(c.legacySalts, 0), second);
    HexOptionAside("legacy0", Nth(c.legacySalts, 0), second, "legacy1");
    HexOptionValue("legacy1", Nth(c.legacySalts, 1));
  }

  lemma LegacyAside(hash: Option<Bytes>)
    ensures OptionValue(HexOption("legacy1", hash), "legacy0") == None
  {
    assert "legacy0"[6] != "legacy1"[6];
    HexOptionAside("legacy1", hash, [], "legacy0");
    assert HexOption("legacy1", hash) + [] == HexOption("legacy1", hash);
  }

  lemma OtherLookups(c: Config)
    ensures OptionValue(TrustOptions(c), "anchors") == Some(HexList(c.anchors))
    ensures OptionValue(TrustOptions(c), "authoritative") == HexIn(c.authoritative)
    ensures OptionValue(PolicyOptions(c), "deletion_horizon_days") == Some(IntText(c.horizonDays))
    ensures OptionValue(RfedOptions(c), "topic") == Some(c.topic)
    ensures OptionValue(RfedOptions(c), "node") == HexIn(c.node)
    ensures OptionValue(LxmfOptions(c), "proprietor") == HexIn(c.proprietor)
  {
    hide ToHex, OptionValue, HexOption, HexList, IntText;
    var authoritative, node := HexOption("authoritative", c.authoritative), HexOption("node", c.node);
    OptionStep(("anchors", HexList(c.anchors)), authoritative, "anchors");
    OptionStep(("anchors", HexList(c.anchors)), authoritative, "authoritative");
    OptionStep(("topic", c.topic), node, "topic");
    OptionStep(("topic", c.topic), node, "node");
    var horizon := ("deletion_horizon_days", IntText(c.horizonDays));
    assert [horizon] == [horizon] + [];
    OptionStep(horizon, [], "deletion_horizon_days");
    HexOptionValue("authoritative", c.authoritative);
    HexOptionValue("node", c.node);
    HexOptionValue("proprietor", c.proprietor);
  }

  // ---- Round trip ------------------------------------------------------------------

  /** At most two legacy salts are written. */
  function Written(salts: seq<Salt>): seq<Salt> {
    if |salts| > MAX_LEGACY_SALTS then salts[..MAX_LEGACY_SALTS] else salts
  }

  lemma SaltsWritten(salts: seq<Salt>)
    ensures Present(Nth(salts, 0)) + Present(Nth(salts, 1)) == Written(salts)
  {}

  lemma ValuesBack(c: Config)
    requires IsValue(c.topic)
    ensures PrimaryOf(Some(ToHex(c.primarySalt))) == Ok(c.primarySalt)
    ensures HorizonOf(Some(IntText(c.horizonDays))) == Ok(c.horizonDays)
    ensures TopicOf(Some(c.topic)) == c.topic
  {
    HexValue(c.primarySalt, "primary");
    IntBack(c.horizonDays);
    TrimmedStays(c.topic);
    hide ToHex, IntText, Trim, ParseInt, ParseHex;
  }

  /** Decoding what was encoded gives back the configuration, up to the legacy salts that
      were not written. */
  lemma RoundTrip(c: Config)
    requires IsValue(c.topic)
    ensures Decode(Encode(c)) == Ok(c.(legacySalts := Written(c.legacySalts)))
  {
    hide SectionsOf, Get, Printed, Parsed, ToHex, HexIn, HexList, IntText, PrimaryOf, HorizonOf, AnchorsOf, TopicOf,
      ParseOptional, OptionValue, Nth, Present, Written, SaltOptions, TrustOptions, PolicyOptions, RfedOptions,
      LxmfOptions, IsValue, ProperSection;
    SectionsProper(c);
    Ini.RoundTrip(SectionsOf(c));
    ReadBack(c);
  }

  lemma ReadBack(c: Config)
    requires IsValue(c.topic)
    ensures FromSections(SectionsOf(c)) == Ok(c.(legacySalts := Written(c.legacySalts)))
  {
    hide SectionsOf, Get, ToHex, HexList, IntText, PrimaryOf, HorizonOf, AnchorsOf, TopicOf, ParseOptional, OptionValue,
      Nth, Present, Written, SaltOptions, TrustOptions, PolicyOptions, RfedOptions, LxmfOptions, IsValue;
    SaltLookups(c);
    OtherLookups(c);
    ValuesBack(c);
    AnchorsBack(c.anchors);
    SaltsWritten(c.legacySalts);
    Lookups(c, "primary");
    Lookups(c, "legacy0");
    Lookups(c, "legacy1");
    Lookups(c, "anchors");
    Lookups(c, "authoritative");
    Lookups(c, "deletion_horizon_days");
    Lookups(c, "topic");
    Lookups(c, "node");
    Lookups(c, "proprietor");
    OptionalBack(Nth(c.legacySalts, 0), SALT_SIZE, "legacy0");
    OptionalBack(Nth(c.legacySalts, 1), SALT_SIZE, "legacy1");
    OptionalBack(c.authoritative, HASH_SIZE, "authoritative");
    OptionalBack(c.node, HASH_SIZE, "node");
    OptionalBack(c.proprietor, HASH_SIZE, "proprietor");
    assert HexIn(None) == None;
  }

  lemma DecodedAreWritable(text: string)
    ensures var decoded := Decode(text);
            decoded.Ok? ==> IsValue(decoded.value.topic) && |decoded.value.legacySalts| <= MAX_LEGACY_SALTS
  {
    hide Parsed, Get, IsValue, ParseOptional, PrimaryOf, AnchorsOf, HorizonOf;
    var topic := Get(Parsed(text), "rfed", "topic");
    ParsedYields(text, "rfed", "topic");
    TopicIsValue(topic);
  }

  lemma TopicIsValue(topic: Option<string>)
    requires topic.Some? ==> IsValue(topic.value)
    ensures IsValue(TopicOf(topic))
  {
    if topic.Some? {
      TrimmedStays(topic.value);
    }
  }

  /** A configuration survives being written and read exactly when it has at most two legacy
      salts and a trimmed topic on one line. */
  lemma SurvivesExactly(c: Config)
    ensures Decode(Encode(c)) == Ok(c) <==> |c.legacySalts| <= MAX_LEGACY_SALTS && IsValue(c.topic)
  {
    hide Decode, Encode, IsValue;
    DecodedAreWritable(Encode(c));
    if IsValue(c.topic) {
      RoundTrip(c);
    }
  }

  /** A topic of two lines does not come back. */
  lemma TwoLineTopicIsCut(c: Config, first: string, second: string)
    requires c.topic == first + ['\n'] + second
    ensures Decode(Encode(c)) != Ok(c)
  {
    hide Decode, Encode;
    assert c.topic[|first|] == '\n';
    SurvivesExactly(c);
  }
}
