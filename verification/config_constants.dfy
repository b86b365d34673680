/**
  The configurable enumeration of `vspec/model/constants.py`
  (`VSSEnumMetaConfigurable`, used by `Unit`): constants read from a parsed
  configuration mapping of the form

      { section name: { token: { "label": ..., "description": ..., "domain": ... } } }

  are attached to the class under a key derived from their label, and
  registered in the reverse lookup under their token. Reading the
  configuration file is not modelled; the functions here take the parsed
  mapping. A section keeps the order of its entries (YAML mappings load as
  insertion-ordered dictionaries).
 */
module ConfigurableConstants {
  import opened Wrappers
  import opened PyDict
  import opened Constants

  // ---------------------------------------------------------------------
  // Derived keys
  // ---------------------------------------------------------------------

  /**
    The characters the label pattern keeps. The pattern is defined outside
    the modelled files; it is taken to match every character that is not
    an ASCII letter or digit.
   */
  predicate IsAsciiAlnum(c: char) {
    ('a' <= c <= 'z') || ('A' <= c <= 'Z') || ('0' <= c <= '9')
  }

  /** The characters a derived key is made of. */
  predicate IsKeyChar(c: char) {
    ('A' <= c <= 'Z') || ('0' <= c <= '9')
  }

  /** `str.upper` on an ASCII letter or digit. */
  function ToUpper(c: char): (r: char)
    requires IsAsciiAlnum(c)
    ensures IsKeyChar(r)
    ensures 'a' <= c <= 'z' ==> r as int == c as int - 32
    ensures !('a' <= c <= 'z') ==> r == c
  {
    if 'a' <= c <= 'z' then (c as int - 32) as char else c
  }

  /** What one character of a label contributes to its key. */
  function KeyOf(c: char): (r: string)
    ensures |r| <= 1 && forall i :: 0 <= i < |r| ==> IsKeyChar(r[i])
    ensures |r| == 1 <==> IsAsciiAlnum(c)
  {
    if IsAsciiAlnum(c) then [ToUpper(c)] else []
  }

  /** The key a label derives: every character that is not an ASCII letter or digit removed, the rest upper-cased. */
  function DeriveKey(text: string): (r: string)
    ensures forall i :: 0 <= i < |r| ==> IsKeyChar(r[i])
    ensures |r| <= |text|
  {
    if |text| == 0 then ""
    else DeriveKey(text[..|text| - 1]) + KeyOf(text[|text| - 1])
  }

  lemma DeriveKeySnoc(s: string, c: char)
    ensures DeriveKey(s + [c]) == DeriveKey(s) + KeyOf(c)
  {
    assert (s + [c])[..|s|] == s;
  }

  /** Deriving distributes over concatenation: each character is kept or dropped on its own. */
  lemma {:induction false} DeriveKeyAppend(a: string, b: string)
    ensures DeriveKey(a + b) == DeriveKey(a) + DeriveKey(b)
  {
    if |b| == 0 {
      assert a + b == a;
      assert DeriveKey(a) + DeriveKey(b) == DeriveKey(a);
    } else {
      var n := |b| - 1;
      var b', c := b[..n], b[n];
      assert b == b' + [c];
      assert a + b == (a + b') + [c];
      DeriveKeyAppend(a, b');
      DeriveKeySnoc(a + b', c);
      DeriveKeySnoc(b', c);
      assert (DeriveKey(a) + DeriveKey(b')) + KeyOf(c) == DeriveKey(a) + (DeriveKey(b') + KeyOf(c));
    }
  }

  /** A single character is upper-cased when it is an ASCII letter or digit, and dropped otherwise. */
  lemma DeriveKeyChar(c: char)
    ensures IsAsciiAlnum(c) ==> DeriveKey([c]) == [ToUpper(c)]
    ensures !IsAsciiAlnum(c) ==> DeriveKey([c]) == ""
  {
    DeriveKeySnoc("", c);
    assert "" + [c] == [c];
  }

  /** A label is its own key exactly when it already consists of upper-case letters and digits. */
  lemma {:induction false} DeriveKeyFixed(s: string)
    ensures DeriveKey(s) == s <==> forall i :: 0 <= i < |s| ==> IsKeyChar(s[i])
  {
    if |s| > 0 && forall i :: 0 <= i < |s| ==> IsKeyChar(s[i]) {
      var n := |s| - 1;
      var init, c := s[..n], s[n];
      assert s == init + [c];
      assert forall i :: 0 <= i < n ==> init[i] == s[i];
      DeriveKeyFixed(init);
      DeriveKeySnoc(init, c);
      assert KeyOf(c) == [c];
    }
  }

  /** Deriving a key twice gives the same key as deriving it once. */
  lemma DeriveKeyIdempotent(text: string)
    ensures DeriveKey(DeriveKey(text)) == DeriveKey(text)
  {
    DeriveKeyFixed(DeriveKey(text));
  }

  /** A derived key holds no `_`, so it is always a member name. */
  lemma DerivedKeyIsMemberName(text: string)
    ensures IsMemberName(DeriveKey(text))
  {
    NoUnderscoreIsMemberName(DeriveKey(text));
  }

  /** Each character of a label made only of ASCII letters and digits is upper-cased in place. */
  lemma {:induction false} DeriveKeyWord(s: string)
    requires forall i :: 0 <= i < |s| ==> IsAsciiAlnum(s[i])
    ensures |DeriveKey(s)| == |s|
    ensures forall i :: 0 <= i < |s| ==> DeriveKey(s)[i] == ToUpper(s[i])
  {
    if |s| > 0 {
      var n := |s| - 1;
      var init, c := s[..n], s[n];
      assert s == init + [c];
      DeriveKeyWord(init);
      DeriveKeySnoc(init, c);
    }
  }

  /** A character that is not an ASCII letter or digit contributes nothing to the key. */
  lemma DeriveKeyDrop(a: string, c: char, b: string)
    requires !IsAsciiAlnum(c)
    ensures DeriveKey((a + [c]) + b) == DeriveKey(a) + DeriveKey(b)
  {
    DeriveKeySnoc(a, c);
    DeriveKeyAppend(a + [c], b);
  }

  /** The data-type label `UNIX Timestamp` derives `UNIXTIMESTAMP`. */
  lemma DeriveKeyUnixTimestamp()
    ensures DeriveKey("UNIX Timestamp") == "UNIXTIMESTAMP"
  {
    assert ("UNIX" + [' ']) + "Timestamp" == "UNIX Timestamp";
    assert "UNIX" + "TIMESTAMP" == "UNIXTIMESTAMP";
    assert DeriveKey("UNIX") == "UNIX" by { DeriveKeyWord("UNIX"); }
    assert DeriveKey("Timestamp") == "TIMESTAMP" by { DeriveKeyWord("Timestamp"); }
    DeriveKeyDrop("UNIX", ' ', "Timestamp");
  }

  /** The unit label `km/h` is registered under `KMH`. */
  lemma DeriveKeyKmPerHour()
    ensures DeriveKey("km/h") == "KMH"
  {
    assert ("km" + ['/']) + "h" == "km/h";
    assert "KM" + "H" == "KMH";
    assert DeriveKey("km") == "KM" by { DeriveKeyWord("km"); }
    assert DeriveKey("h") == "H" by { DeriveKeyWord("h"); }
    DeriveKeyDrop("km", '/', "h");
  }

  // ---------------------------------------------------------------------
  // Configuration entries
  // ---------------------------------------------------------------------

  /** A parsed configuration entry: `label`, optionally `description` and `domain`. */
  type Info = map<string, string>

  /** A configuration section: token to entry, in file order. */
  type Section = Dict<string, Info>

  /** The entry's value under `key`, or `None` when the entry does not set it. */
  function Get(info: Info, key: string): (r: Option<string>)
    ensures r.Some? <==> key in info
    ensures r.Some? ==> r.value == info[key]
  {
    if key in info then Some(info[key]) else None
  }

  /**
    `dict_to_constant_config(name, info)`: the derived key and the constant
    labelled by the entry's `label` with `name` as its token; an entry
    without `label` fails its assertion.
   */
  function DictToConstantConfig(name: string, info: Info): (r: Result<(string, Constant), Error>)
    ensures r.Err? <==> "label" !in info
    ensures r.Err? ==> r.error == MissingLabel(name)
    ensures r.Ok? ==> r.value.0 == DeriveKey(info["label"])
    ensures r.Ok? ==> r.value.1.display == info["label"] && r.value.1.value == name
    ensures r.Ok? ==> r.value.1.description == Get(info, "description") && r.value.1.domain == Get(info, "domain")
  {
    if "label" !in info then Err(MissingLabel(name))
    else
      var text := info["label"];
      Ok((DeriveKey(text), Constant(text, name, Get(info, "description"), Get(info, "domain"))))
  }

  /** What a generator produced: the pairs it yielded, and what it raised after them, if anything. */
  datatype Yielded = Yielded(pairs: seq<(string, Constant)>, failure: Option<Error>)

  /** The entries of `names` converted in order, stopping at the first that cannot be. */
  function YieldEntries(names: seq<string>, entries: map<string, Info>): (r: Yielded)
    requires forall k :: k in names ==> k in entries
    ensures |r.pairs| <= |names|
    ensures forall i :: 0 <= i < |r.pairs| ==> DictToConstantConfig(names[i], entries[names[i]]) == Ok(r.pairs[i])
    ensures r.failure.None? ==> |r.pairs| == |names|
    ensures r.failure.Some? ==> |r.pairs| < |names|
                                && "label" !in entries[names[|r.pairs|]]
                                && r.failure.value == MissingLabel(names[|r.pairs|])
  {
    if |names| == 0 then Yielded([], None)
    else
      match DictToConstantConfig(names[0], entries[names[0]])
      case Err(e) => Yielded([], Some(e))
      case Ok(p) =>
        var rest := YieldEntries(names[1..], entries);
        assert forall i :: 1 <= i < |names| ==> names[i] == names[1..][i - 1];
        Yielded([p] + rest.pairs, rest.failure)
  }

  /** Configuration sections keep each token once. */
  ghost predicate ValidConfig(config: map<string, Section>) {
    forall s :: s in config ==> Valid(config[s])
  }

  /**
    `iterate_config_members(config, name)`: nothing when the section is
    missing, otherwise one pair per entry of the section, in order.
   */
  function IterateConfigMembers(config: map<string, Section>, configName: string): (r: Yielded)
    requires ValidConfig(config)
    ensures configName !in config ==> r == Yielded([], None)
    ensures configName in config ==>
              var names := config[configName].keys;
              && |r.pairs| <= |names|
              && (forall i :: 0 <= i < |r.pairs| ==>
                    DictToConstantConfig(names[i], config[configName].entries[names[i]]) == Ok(r.pairs[i]))
              && (r.failure.None? <==> |r.pairs| == |names|)
  {
    if configName in config then
      var section := config[configName];
      YieldEntries(section.keys, section.entries)
    else Yielded([], None)
  }

  /** Yielding stops early exactly when an entry lacks a label. */
  lemma YieldEntriesComplete(names: seq<string>, entries: map<string, Info>)
    requires forall k :: k in names ==> k in entries
    ensures YieldEntries(names, entries).failure.None? <==> forall i :: 0 <= i < |names| ==> "label" in entries[names[i]]
  {
  }

  /** The tokens of the yielded constants are the section's tokens read so far. */
  lemma YieldedTokens(names: seq<string>, entries: map<string, Info>)
    requires forall k :: k in names ==> k in entries
    ensures Tokens(Seconds(YieldEntries(names, entries).pairs)) == names[..|YieldEntries(names, entries).pairs|]
  {
  }

  // ---------------------------------------------------------------------
  // VSSEnumMetaConfigurable
  // ---------------------------------------------------------------------

  /** A configurable enumeration: its `__config_name__` attribute, if it has one, and the enumeration. */
  datatype ConfigEnum = ConfigEnum(configName: Option<Attr>, registry: Enum)

  /**
    The members read for a `__config_name__` attribute: the named section
    when it is text; a constant never names a section.
   */
  function MembersFor(config: map<string, Section>, configName: Attr): (r: Yielded)
    requires ValidConfig(config)
    ensures configName.Const? ==> r == Yielded([], None)
  {
    match configName
    case Text(name) => IterateConfigMembers(config, name)
    case Const(_) => Yielded([], None)
  }

  /**
    `VSSEnumMetaConfigurable.__new__` with the configuration already
    parsed: every pair read from the class's section is stored in the class
    body under its derived key, then the enumeration is created from the
    body. A class without `__config_name__`, an entry without a label, or a
    body member that is not a constant makes creation fail.
   */
  function NewConfigurable(ns: Dict<string, Attr>, config: map<string, Section>): (r: Result<ConfigEnum, Error>)
    requires Valid(ns) && ValidConfig(config)
    ensures "__config_name__" !in ns.entries ==> r == Err(MissingConfigName)
    ensures "__config_name__" in ns.entries && MembersFor(config, ns.entries["__config_name__"]).failure.Some? ==>
              r == Err(MembersFor(config, ns.entries["__config_name__"]).failure.value)
    ensures r.Ok? ==> r.value.configName == Some(ns.entries["__config_name__"])
    ensures r.Ok? ==> Wf(r.value.registry) && Synced(r.value.registry)
  {
    if "__config_name__" !in ns.entries then Err(MissingConfigName)
    else
      var y := MembersFor(config, ns.entries["__config_name__"]);
      if y.failure.Some? then Err(y.failure.value)
      else
        match BuildEnum(PutAll(ns, ConstBody(y.pairs)))
        case Err(e) => Err(e)
        case Ok(e) => Ok(ConfigEnum(Some(ns.entries["__config_name__"]), e))
  }

  /** `setattr(cls, k, v)` for each pair in turn. */
  function PutAttrs(m: map<string, Constant>, ps: seq<(string, Constant)>): (r: map<string, Constant>)
    ensures forall k :: k in r <==> k in m || k in Firsts(ps)
    ensures forall k :: k in m && k !in Firsts(ps) ==> r[k] == m[k]
    ensures forall k :: k in Firsts(ps) ==> r[k] == LastFor(ps, k)
  {
    if |ps| == 0 then m
    else
      var n := |ps| - 1;
      FirstsSnoc(ps);
      PutAttrs(m, ps[..n])[ps[n].0 := ps[n].1]
  }

  /** What `add_config` leaves behind, and what it raised, if anything. */
  datatype Outcome = Outcome(after: ConfigEnum, failure: Option<Error>)

  /**
    `add_config(config)`: each pair read from the class's section is set as
    a class attribute and registered in the reverse lookup under its
    token; the tuple of tokens is rebuilt once the section has been read
    completely. An entry without a label aborts the loop after the
    earlier entries have been applied, leaving the tuple of tokens as it
    was.
   */
  function AddConfig(ce: ConfigEnum, config: map<string, Section>): (r: Outcome)
    requires Valid(ce.registry.lookup) && ValidConfig(config)
    ensures ce.configName.None? ==> r == Outcome(ce, Some(MissingConfigName))
    ensures r.after.configName == ce.configName
    ensures Valid(r.after.registry.lookup)
    ensures Wf(ce.registry) ==> Wf(r.after.registry)
    ensures r.failure.None? ==> Synced(r.after.registry)
    ensures r.failure.Some? ==> r.after.registry.values == ce.registry.values
  {
    match ce.configName
    case None => Outcome(ce, Some(MissingConfigName))
    case Some(a) =>
      var y := MembersFor(config, a);
      var cs := Seconds(y.pairs);
      var lookup := PutAll(ce.registry.lookup, ByValue(cs));
      assert Wf(ce.registry) ==> KeyedByValue(lookup) by {
        if Wf(ce.registry) { ByValueKeyed(ce.registry.lookup, cs); }
      }
      var values := if y.failure.None? then lookup.keys else ce.registry.values;
      var attributes := PutAttrs(ce.registry.attributes, y.pairs);
      Outcome(ConfigEnum(ce.configName, Enum(attributes, lookup, values)), y.failure)
  }

  /** The pairs `add_config` reads for a class named by text. */
  lemma SectionPairs(config: map<string, Section>, name: string)
    requires ValidConfig(config) && name in config
    requires IterateConfigMembers(config, name).failure.None?
    ensures Tokens(Seconds(IterateConfigMembers(config, name).pairs)) == config[name].keys
  {
    var sec := config[name];
    YieldedTokens(sec.keys, sec.entries);
    assert sec.keys[..|sec.keys|] == sec.keys;
  }

  /**
    After `add_config`, whether complete or aborted, `from_str` returns the
    constant built from each entry of the section that was read.
   */
  lemma AddConfigRegisters(ce: ConfigEnum, config: map<string, Section>, name: string, i: nat)
    requires Wf(ce.registry) && ValidConfig(config)
    requires ce.configName == Some(Text(name)) && name in config
    requires i < |IterateConfigMembers(config, name).pairs|
    ensures var t := config[name].keys[i];
            && DictToConstantConfig(t, config[name].entries[t]).Ok?
            && FromStr(AddConfig(ce, config).after.registry, t) == Ok(DictToConstantConfig(t, config[name].entries[t]).value.1)
  {
    var sec := config[name];
    var y := IterateConfigMembers(config, name);
    var cs := Seconds(y.pairs);
    var t := sec.keys[i];
    assert DictToConstantConfig(t, sec.entries[t]) == Ok(y.pairs[i]);
    AddConfigLookup(ce, config, name);
    YieldedTokens(sec.keys, sec.entries);
    DistinctPrefix(sec.keys, |y.pairs|);
    ByValueRegisters(ce.registry.lookup, cs, i);
    assert cs[i] == y.pairs[i].1;
  }

  /** The lookup `add_config` leaves: every pair read, registered under its token. */
  lemma AddConfigLookup(ce: ConfigEnum, config: map<string, Section>, name: string)
    requires Valid(ce.registry.lookup) && ValidConfig(config)
    requires ce.configName == Some(Text(name))
    ensures AddConfig(ce, config).after.registry.lookup
         == PutAll(ce.registry.lookup, ByValue(Seconds(IterateConfigMembers(config, name).pairs)))
  {
  }

  /**
    After a complete `add_config`, the tokens registered before keep their
    order and the section's new tokens follow in file order, each once.
   */
  lemma AddConfigOrder(ce: ConfigEnum, config: map<string, Section>, name: string)
    requires Wf(ce.registry) && Synced(ce.registry) && ValidConfig(config)
    requires ce.configName == Some(Text(name)) && name in config
    requires AddConfig(ce, config).failure.None?
    ensures AddConfig(ce, config).after.registry.values == ce.registry.values + Fresh(config[name].keys, ce.registry.values)
    ensures Distinct(AddConfig(ce, config).after.registry.values)
  {
    var y := IterateConfigMembers(config, name);
    var ps := ByValue(Seconds(y.pairs));
    SectionPairs(config, name);
    PutAllKeys(ce.registry.lookup, ps);
    DedupAppend(ce.registry.lookup.keys, config[name].keys);
  }

  /** `add_config` leaves the lookup of every token outside the section unchanged. */
  lemma AddConfigKeepsOthers(ce: ConfigEnum, config: map<string, Section>, name: string, t: string)
    requires Wf(ce.registry) && ValidConfig(config)
    requires ce.configName == Some(Text(name)) && name in config
    requires AddConfig(ce, config).failure.None?
    requires t !in config[name].entries
    ensures FromStr(AddConfig(ce, config).after.registry, t) == FromStr(ce.registry, t)
  {
    var y := IterateConfigMembers(config, name);
    var ps := ByValue(Seconds(y.pairs));
    SectionPairs(config, name);
    PutAllEntries(ce.registry.lookup, ps);
  }

  /** `add_config` for a class whose section is absent changes nothing. */
  lemma AddConfigNoSection(ce: ConfigEnum, config: map<string, Section>, name: string)
    requires Wf(ce.registry) && Synced(ce.registry) && ValidConfig(config)
    requires ce.configName == Some(Text(name)) && name !in config
    ensures AddConfig(ce, config) == Outcome(ce, None)
  {
    assert Seconds([]) == [];
    assert ByValue([]) == [];
  }

  /**
    An `add_config` aborted by an entry without a label stops at that entry
    and leaves the tuple of tokens as it was, although the entries before it
    are registered (`AddConfigRegisters`).
   */
  lemma AddConfigAborted(ce: ConfigEnum, config: map<string, Section>, name: string)
    requires Wf(ce.registry) && ValidConfig(config)
    requires ce.configName == Some(Text(name)) && name in config
    requires AddConfig(ce, config).failure.Some?
    ensures var k := |IterateConfigMembers(config, name).pairs|;
            && k < |config[name].keys|
            && AddConfig(ce, config).failure == Some(MissingLabel(config[name].keys[k]))
            && AddConfig(ce, config).after.registry.values == ce.registry.values
  {
  }

  // ---------------------------------------------------------------------
  // Configurable classes
  // ---------------------------------------------------------------------

  /** The namespace entries of a configurable class that declares only its section name. */
  function ConfigHeader(qualname: string, name: string): (r: seq<(string, Attr)>)
    ensures ReservedNames(r)
  {
    var r := Header(qualname) + [("__config_name__", Text(name))];
    HeaderKeysReserved();
    DunderOfCore("config_name");
    assert "__config_name__" == "__" + "config_name" + "__";
    assert Firsts(r) == HeaderKeys + ["__config_name__"];
    r
  }

  /** The body of a configurable class that declares only its section name. */
  function ConfigurableBody(qualname: string, name: string): (r: Dict<string, Attr>)
    ensures Valid(r)
    ensures "__config_name__" in r.entries && r.entries["__config_name__"] == Text(name)
  {
    var pre := ConfigHeader(qualname, name);
    PutAllEntries(Empty(), pre);
    assert pre[2] == ("__config_name__", Text(name));
    LastForAfter(pre, 2);
    PutAll(Empty(), pre)
  }

  /**
    Creating a configurable class whose section reads without failure
    builds the enumeration from the header followed by the section's
    constants under their derived keys.
   */
  lemma ConfigurableBuild(qualname: string, name: string, config: map<string, Section>)
    requires ValidConfig(config) && IterateConfigMembers(config, name).failure.None?
    ensures var b := BuildEnum(PutAll(Empty(), ConfigHeader(qualname, name) + ConstBody(IterateConfigMembers(config, name).pairs)));
            NewConfigurable(ConfigurableBody(qualname, name), config)
            == if b.Ok? then Ok(ConfigEnum(Some(Text(name)), b.value)) else Err(b.error)
  {
    PutAllConcat(Empty(), ConfigHeader(qualname, name), ConstBody(IterateConfigMembers(config, name).pairs));
  }

  /**
    The configurable `Unit` enumeration, whose constants come from the
    `units` section of the configuration: an unlabelled entry stops its
    creation; a fully labelled section with distinct derived keys gives
    the section's tokens in file order; no section gives no tokens.
   */
  function UnitClass(config: map<string, Section>): (r: Result<ConfigEnum, Error>)
    requires ValidConfig(config)
    ensures IterateConfigMembers(config, "units").failure.Some? ==>
              r == Err(IterateConfigMembers(config, "units").failure.value)
    ensures r.Ok? ==> r.value.configName == Some(Text("units"))
    ensures "units" in config && DistinctDerivedKeys(config["units"])
            && (forall t :: t in config["units"].entries ==> "label" in config["units"].entries[t]) ==>
              r.Ok? && r.value.registry.values == config["units"].keys
    ensures "units" !in config ==> r.Ok? && r.value.registry.values == []
  {
    ConfigurableOutcome("Unit", "units", config);
    NewConfigurable(ConfigurableBody("Unit", "units"), config)
  }

  /** The outcomes of creating a configurable class, by the state of its section. */
  lemma ConfigurableOutcome(qualname: string, name: string, config: map<string, Section>)
    requires ValidConfig(config)
    ensures var r := NewConfigurable(ConfigurableBody(qualname, name), config);
            && (IterateConfigMembers(config, name).failure.Some? ==> r == Err(IterateConfigMembers(config, name).failure.value))
            && (r.Ok? ==> r.value.configName == Some(Text(name)))
            && (name in config && DistinctDerivedKeys(config[name])
                && (forall t :: t in config[name].entries ==> "label" in config[name].entries[t]) ==>
                  r.Ok? && r.value.registry.values == config[name].keys)
            && (name !in config ==> r.Ok? && r.value.registry.values == [])
  {
    if name !in config {
      ConfigurableWithoutSection(qualname, name, config);
    } else if DistinctDerivedKeys(config[name])
              && (forall t :: t in config[name].entries ==> "label" in config[name].entries[t]) {
      ConfigurableClass(qualname, name, config);
    }
  }

  /** No two labelled entries of the section derive the same key. */
  predicate DistinctDerivedKeys(sec: Section) {
    forall i, j :: 0 <= i < j < |sec.keys| && sec.keys[i] in sec.entries && sec.keys[j] in sec.entries
                   && "label" in sec.entries[sec.keys[i]] && "label" in sec.entries[sec.keys[j]] ==>
                   DeriveKey(sec.entries[sec.keys[i]]["label"]) != DeriveKey(sec.entries[sec.keys[j]]["label"])
  }

  /** The pairs read from a fully labelled section with distinct derived keys have distinct member names. */
  lemma {:induction false} SectionMemberNames(config: map<string, Section>, name: string)
    requires ValidConfig(config) && name in config && DistinctDerivedKeys(config[name])
    requires IterateConfigMembers(config, name).failure.None?
    ensures MemberNames(IterateConfigMembers(config, name).pairs)
  {
    var sec := config[name];
    var ps := IterateConfigMembers(config, name).pairs;
    forall i | 0 <= i < |ps| ensures IsMemberName(ps[i].0) {
      DerivedKeyIsMemberName(sec.entries[sec.keys[i]]["label"]);
    }
    forall i, j | 0 <= i < j < |ps| ensures Firsts(ps)[i] != Firsts(ps)[j] {
      assert Firsts(ps)[i] == DeriveKey(sec.entries[sec.keys[i]]["label"]);
    }
  }

  /**
    A configurable class that declares only its section name, read from a
    section whose entries all carry a label and derive distinct keys:
    creation succeeds and the class's tokens are the section's tokens in
    file order.
   */
  lemma ConfigurableClass(qualname: string, name: string, config: map<string, Section>)
    requires ValidConfig(config) && name in config && DistinctDerivedKeys(config[name])
    requires forall t :: t in config[name].entries ==> "label" in config[name].entries[t]
    ensures NewConfigurable(ConfigurableBody(qualname, name), config).Ok?
    ensures NewConfigurable(ConfigurableBody(qualname, name), config).value.registry.values == config[name].keys
  {
    var sec := config[name];
    YieldEntriesComplete(sec.keys, sec.entries);
    var y := IterateConfigMembers(config, name);
    ConfigurableBuild(qualname, name, config);
    SectionMemberNames(config, name);
    ReservedThenConstants(ConfigHeader(qualname, name), y.pairs);
    SectionPairs(config, name);
    DedupOfDistinct(sec.keys);
  }

  /** A configurable class whose section is absent is created with no tokens. */
  lemma ConfigurableWithoutSection(qualname: string, name: string, config: map<string, Section>)
    requires ValidConfig(config) && name !in config
    ensures NewConfigurable(ConfigurableBody(qualname, name), config).Ok?
    ensures NewConfigurable(ConfigurableBody(qualname, name), config).value.registry.values == []
  {
    var none: seq<(string, Constant)> := [];
    assert IterateConfigMembers(config, name).pairs == none;
    ConfigurableBuild(qualname, name, config);
    ReservedThenConstants(ConfigHeader(qualname, name), none);
    assert Tokens(Seconds(none)) == [];
  }

  /** The pair read from an entry: its derived key and a constant whose token is the entry's token. */
  lemma ReadPair(config: map<string, Section>, name: string, q: nat)
    requires ValidConfig(config) && name in config && q < |IterateConfigMembers(config, name).pairs|
    ensures var t := config[name].keys[q];
            && "label" in config[name].entries[t]
            && IterateConfigMembers(config, name).pairs[q].0 == DeriveKey(config[name].entries[t]["label"])
            && IterateConfigMembers(config, name).pairs[q].1.value == t
  {
  }

  /**
    Two entries whose labels derive the same key: the later one replaces the
    earlier in the class body, so the earlier entry's token is not
    registered, although creation succeeds.
   */
  lemma ConfigurableCollision(qualname: string, name: string, config: map<string, Section>, i: nat, j: nat)
    requires ValidConfig(config) && name in config
    requires forall t :: t in config[name].entries ==> "label" in config[name].entries[t]
    requires i < j < |config[name].keys|
    requires DeriveKey(config[name].entries[config[name].keys[i]]["label"])
             == DeriveKey(config[name].entries[config[name].keys[j]]["label"])
    ensures NewConfigurable(ConfigurableBody(qualname, name), config).Ok?
    ensures config[name].keys[i] !in NewConfigurable(ConfigurableBody(qualname, name), config).value.registry.values
  {
    var sec := config[name];
    var y := IterateConfigMembers(config, name);
    assert y.failure.None? by { YieldEntriesComplete(sec.keys, sec.entries); }
    assert Tokens(Seconds(y.pairs)) == sec.keys by { SectionPairs(config, name); }
    assert y.pairs[i].0 == y.pairs[j].0 && y.pairs[i].1.value == sec.keys[i] by {
      ReadPair(config, name, i);
      ReadPair(config, name, j);
    }
    ShadowedMember(ConfigHeader(qualname, name), y.pairs, i, j);
    ConfigurableBuild(qualname, name, config);
  }

  /** With no `units` section, `Unit` is created with no tokens. */
  lemma UnitWithoutSection(config: map<string, Section>)
    requires ValidConfig(config) && "units" !in config
    ensures UnitClass(config).Ok? && UnitClass(config).value.registry.values == []
  {
    ConfigurableWithoutSection("Unit", "units", config);
  }
}
