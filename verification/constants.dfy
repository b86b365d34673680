/**
  The symbol registry of `vspec/model/constants.py`: `VSSConstant` records,
  enumeration classes with a reverse lookup from token to constant and an
  ordered tuple of tokens, and the fixed node-type, data-type and
  string-style enumerations.

  The source builds each enumeration by reflection over the class namespace.
  Here a namespace is an explicit insertion-ordered dictionary from attribute
  name to attribute, and an enumeration is the record the metaclass leaves
  behind: the constant-valued attributes, the reverse lookup, and the cached
  tuple of tokens.
 */
module Constants {
  import opened Wrappers
  import opened PyDict

  /** `VSSConstant(label, value, description, domain)`; `value` is the token and `display` the label (`label` is a Dafny keyword). */
  datatype Constant = Constant(display: string, value: string, description: Option<string>, domain: Option<string>)

  /** An attribute of a class body: a constant, or text such as `__module__` or `__config_name__`. */
  datatype Attr = Const(c: Constant) | Text(s: string)

  /** What the registry operations raise. */
  datatype Error =
    | NotAConstant(attribute: string)   // `.value` read on a non-constant member (AttributeError)
    | UnknownToken(token: string)       // `from_str` on an unregistered token (KeyError)
    | MissingLabel(name: string)        // a configuration entry without `label` (AssertionError)
    | MissingConfigName                 // a configurable class without `__config_name__` (KeyError)

  /**
    An enumeration class: its constant-valued attributes, the reverse lookup
    `__reverse_lookup__` (token to constant, in insertion order) and the
    cached tuple `__values__`.
   */
  datatype Enum = Enum(attributes: map<string, Constant>, lookup: Dict<string, Constant>, values: seq<string>)

  // ---------------------------------------------------------------------
  // Reserved names
  // ---------------------------------------------------------------------

  /** `_is_dunder`: a `__name__` whose inner part neither starts nor ends with `_`; such a name is never also sunder. */
  function IsDunder(name: string): (r: bool)
    ensures r ==> !IsSunder(name)
  {
    && |name| > 4
    && name[..2] == "__" && name[|name| - 2..] == "__"
    && name[2] != '_'
    && name[|name| - 3] != '_'
  }

  /** `_is_sunder`: a `_name_` whose inner part neither starts nor ends with `_`; such a name never opens with `__`. */
  function IsSunder(name: string): (r: bool)
    ensures r ==> |name| > 2 && name[..2] != "__"
  {
    && |name| > 2
    && name[0] == '_' && name[|name| - 1] == '_'
    && name[1] != '_'
    && name[|name| - 2] != '_'
  }

  /** The attribute names the metaclass treats as enumeration members. */
  predicate IsMemberName(name: string) {
    !IsDunder(name) && !IsSunder(name)
  }

  lemma DunderIsNeverSunder(name: string)
    ensures !(IsDunder(name) && IsSunder(name))
  {
  }

  /** Wrapping `core` in double underscores makes a dunder name exactly when `core` is non-empty with no `_` at either end. */
  lemma DunderOfCore(core: string)
    ensures IsDunder("__" + core + "__") <==> |core| > 0 && core[0] != '_' && core[|core| - 1] != '_'
  {
    var n := "__" + core + "__";
    if |core| > 0 {
      assert n[2] == core[0];
      assert n[|n| - 3] == core[|core| - 1];
    }
    assert n[..2] == "__";
    assert n[|n| - 2..] == "__";
  }

  /** Every dunder name is its inner part wrapped in double underscores. */
  lemma DunderHasCore(name: string)
    requires IsDunder(name)
    ensures name == "__" + name[2..|name| - 2] + "__"
  {
    assert name == name[..2] + name[2..|name| - 2] + name[|name| - 2..];
  }

  /** Wrapping `core` in single underscores makes a sunder name exactly when `core` is non-empty with no `_` at either end. */
  lemma SunderOfCore(core: string)
    ensures IsSunder("_" + core + "_") <==> |core| > 0 && core[0] != '_' && core[|core| - 1] != '_'
  {
    var n := "_" + core + "_";
    if |core| > 0 {
      assert n[1] == core[0];
      assert n[|n| - 2] == core[|core| - 1];
    }
  }

  /** Every sunder name is its inner part wrapped in single underscores. */
  lemma SunderHasCore(name: string)
    requires IsSunder(name)
    ensures name == "_" + name[1..|name| - 1] + "_"
  {
    assert name == [name[0]] + name[1..|name| - 1] + [name[|name| - 1]];
  }

  /** A name without any underscore is always a member name. */
  lemma NoUnderscoreIsMemberName(name: string)
    requires forall i :: 0 <= i < |name| ==> name[i] != '_'
    ensures IsMemberName(name)
  {
    if |name| > 0 {
      assert name[0] != '_';
    }
  }

  // ---------------------------------------------------------------------
  // VSSEnumMeta
  // ---------------------------------------------------------------------

  /**
    The constants of the members among `keys`, in order; the first member
    that is not a constant makes reading its `.value` raise.
   */
  function Members(keys: seq<string>, ns: map<string, Attr>): (r: Result<seq<Constant>, Error>)
    requires forall k :: k in keys ==> k in ns
    ensures r.Ok? <==> forall i :: 0 <= i < |keys| && IsMemberName(keys[i]) ==> ns[keys[i]].Const?
    ensures r.Err? ==> exists i :: 0 <= i < |keys| && IsMemberName(keys[i]) && ns[keys[i]].Text? && r.error == NotAConstant(keys[i])
    ensures r.Ok? ==> forall i :: 0 <= i < |keys| && IsMemberName(keys[i]) ==> ns[keys[i]].Const? && ns[keys[i]].c in r.value
  {
    if |keys| == 0 then Ok([])
    else
      var rest := Members(keys[1..], ns);
      assert forall i :: 1 <= i < |keys| ==> keys[i] == keys[1..][i - 1];
      if !IsMemberName(keys[0]) then rest
      else
        match ns[keys[0]]
        case Text(_) => Err(NotAConstant(keys[0]))
        case Const(c) => if rest.Err? then rest else Ok([c] + rest.value)
  }

  /** Every constant `Members` collects is bound to a member name among `keys`. */
  lemma {:induction false} MembersDeclared(keys: seq<string>, ns: map<string, Attr>, c: Constant)
    requires forall k :: k in keys ==> k in ns
    requires Members(keys, ns).Ok? && c in Members(keys, ns).value
    ensures exists i :: 0 <= i < |keys| && IsMemberName(keys[i]) && ns[keys[i]] == Const(c)
  {
    var rest := Members(keys[1..], ns);
    if IsMemberName(keys[0]) && ns[keys[0]] == Const(c) {
    } else {
      assert c in rest.value;
      MembersDeclared(keys[1..], ns, c);
      var j :| 0 <= j < |keys[1..]| && IsMemberName(keys[1..][j]) && ns[keys[1..][j]] == Const(c);
      assert keys[j + 1] == keys[1..][j];
    }
  }

  /** The tokens of `cs`, in order. */
  function Tokens(cs: seq<Constant>): (r: seq<string>)
    ensures |r| == |cs| && forall i :: 0 <= i < |cs| ==> r[i] == cs[i].value
  {
    seq(|cs|, i requires 0 <= i < |cs| => cs[i].value)
  }

  /** The `(value, constant)` pairs the reverse-lookup comprehension inserts. */
  function ByValue(cs: seq<Constant>): (r: seq<(string, Constant)>)
    ensures |r| == |cs| && forall i :: 0 <= i < |cs| ==> r[i] == (cs[i].value, cs[i])
    ensures Firsts(r) == Tokens(cs)
  {
    seq(|cs|, i requires 0 <= i < |cs| => (cs[i].value, cs[i]))
  }

  /** The constant-valued attributes of a namespace. */
  function ConstAttributes(ns: map<string, Attr>): (r: map<string, Constant>)
    ensures forall k :: k in r <==> k in ns && ns[k].Const?
    ensures forall k :: k in r ==> ns[k] == Const(r[k])
  {
    map k | k in ns && ns[k].Const? :: ns[k].c
  }

  /** Every lookup entry is filed under its own token. */
  ghost predicate KeyedByValue(d: Dict<string, Constant>) {
    forall t :: t in d.entries ==> d.entries[t].value == t
  }

  /** A well-formed enumeration: an ordered reverse lookup whose entries are filed under their tokens. */
  ghost predicate Wf(e: Enum) {
    Valid(e.lookup) && KeyedByValue(e.lookup)
  }

  /** The cached tuple of tokens lists the reverse lookup's keys in order. */
  predicate Synced(e: Enum) {
    e.values == e.lookup.keys
  }

  lemma {:induction false} ByValueKeyed(d: Dict<string, Constant>, cs: seq<Constant>)
    requires Valid(d) && KeyedByValue(d)
    ensures KeyedByValue(PutAll(d, ByValue(cs)))
    ensures forall t :: t in PutAll(d, ByValue(cs)).entries <==> t in d.entries || t in Tokens(cs)
    ensures forall t :: t in d.entries && t !in Tokens(cs) ==> PutAll(d, ByValue(cs)).entries[t] == d.entries[t]
    ensures forall t :: t in Tokens(cs) ==> PutAll(d, ByValue(cs)).entries[t] in cs
  {
    var ps := ByValue(cs);
    PutAllEntries(d, ps);
    forall t | t in Tokens(cs)
      ensures PutAll(d, ps).entries[t] in cs && PutAll(d, ps).entries[t].value == t
    {
      LastForIsMember(cs, t);
    }
  }

  /** With distinct tokens, each constant is registered under its own token. */
  lemma ByValueRegisters(d: Dict<string, Constant>, cs: seq<Constant>, i: nat)
    requires Valid(d) && Distinct(Tokens(cs)) && i < |cs|
    ensures cs[i].value in PutAll(d, ByValue(cs)).entries
    ensures PutAll(d, ByValue(cs)).entries[cs[i].value] == cs[i]
  {
    var ps := ByValue(cs);
    assert ps[i] == (cs[i].value, cs[i]);
    PutAllDistinct(d, ps, i);
  }

  lemma {:induction false} LastForIsMember(cs: seq<Constant>, t: string)
    requires t in Tokens(cs)
    ensures t in Firsts(ByValue(cs))
    ensures LastFor(ByValue(cs), t) in cs && LastFor(ByValue(cs), t).value == t
  {
    var n := |cs| - 1;
    if cs[n].value != t {
      assert ByValue(cs[..n]) == ByValue(cs)[..n];
      var i :| 0 <= i < |cs| && Tokens(cs)[i] == t;
      assert Tokens(cs[..n])[i] == t;
      LastForIsMember(cs[..n], t);
    }
  }

  /**
    `VSSEnumMeta.__new__`: the reverse lookup maps the token of every
    member (non-dunder, non-sunder attribute) to that member, later
    members with the same token replacing earlier ones; `__values__` is
    the tuple of its keys.
   */
  function BuildEnum(ns: Dict<string, Attr>): (r: Result<Enum, Error>)
    requires Valid(ns)
    ensures r.Ok? <==> forall i :: 0 <= i < |ns.keys| && IsMemberName(ns.keys[i]) ==> ns.entries[ns.keys[i]].Const?
    ensures r.Ok? ==> Wf(r.value) && Synced(r.value)
    ensures r.Ok? ==> r.value.attributes == ConstAttributes(ns.entries)
  {
    match Members(ns.keys, ns.entries)
    case Err(e) => Err(e)
    case Ok(cs) =>
      var lookup := PutAll(Empty(), ByValue(cs));
      ByValueKeyed(Empty(), cs);
      Ok(Enum(ConstAttributes(ns.entries), lookup, lookup.keys))
  }

  /**
    The tokens of a created enumeration are its members' tokens in
    declaration order, each once; each token is bound to a member
    declared with it (the last one, when several share it).
   */
  lemma BuildEnumMembers(ns: Dict<string, Attr>)
    requires Valid(ns) && BuildEnum(ns).Ok?
    ensures BuildEnum(ns).value.values == Dedup(Tokens(Members(ns.keys, ns.entries).value))
    ensures forall t :: t in BuildEnum(ns).value.lookup.entries ==>
              BuildEnum(ns).value.lookup.entries[t] in Members(ns.keys, ns.entries).value
  {
    var cs := Members(ns.keys, ns.entries).value;
    var e := BuildEnum(ns).value;
    assert e.lookup == PutAll(Empty(), ByValue(cs));
    PutAllKeys(Empty(), ByValue(cs));
    assert Empty<string, Constant>().keys + Tokens(cs) == Tokens(cs);
    ByValueKeyed(Empty(), cs);
  }

  /** Every constant bound to a member name of the namespace is registered under its token. */
  lemma MemberRegistered(ns: Dict<string, Attr>, k: string)
    requires Valid(ns) && BuildEnum(ns).Ok? && k in ns.entries && IsMemberName(k)
    ensures ns.entries[k].Const? && ns.entries[k].c.value in BuildEnum(ns).value.values
  {
    BuildEnumMembers(ns);
    var cs := Members(ns.keys, ns.entries).value;
    var i :| 0 <= i < |ns.keys| && ns.keys[i] == k;
    var a :| 0 <= a < |cs| && cs[a] == ns.entries[k].c;
    assert Tokens(cs)[a] == ns.entries[k].c.value;
  }

  /** Every registered token is the token of a constant bound to a member name of the namespace. */
  lemma RegisteredIsBound(ns: Dict<string, Attr>, t: string)
    requires Valid(ns) && BuildEnum(ns).Ok? && t in BuildEnum(ns).value.values
    ensures exists k :: k in ns.entries && IsMemberName(k) && ns.entries[k].Const? && ns.entries[k].c.value == t
  {
    RegisteredToken(ns, t);
    var cs := Members(ns.keys, ns.entries).value;
    var a :| 0 <= a < |cs| && cs[a].value == t;
    CollectedIsBound(ns.keys, ns.entries, cs[a]);
    var k :| k in ns.entries && IsMemberName(k) && ns.entries[k] == Const(cs[a]);
    assert ns.entries[k].c.value == t;
  }

  /** A collected constant is bound to some member name of the namespace. */
  lemma CollectedIsBound(keys: seq<string>, ns: map<string, Attr>, c: Constant)
    requires forall k :: k in keys ==> k in ns
    requires Members(keys, ns).Ok? && c in Members(keys, ns).value
    ensures exists k :: k in ns && IsMemberName(k) && ns[k] == Const(c)
  {
    MembersDeclared(keys, ns, c);
    var idx :| 0 <= idx < |keys| && IsMemberName(keys[idx]) && ns[keys[idx]] == Const(c);
    assert keys[idx] in ns;
  }

  /** Every registered token is the token of one of the collected constants. */
  lemma RegisteredToken(ns: Dict<string, Attr>, t: string)
    requires Valid(ns) && BuildEnum(ns).Ok? && t in BuildEnum(ns).value.values
    ensures exists a :: 0 <= a < |Members(ns.keys, ns.entries).value| && Members(ns.keys, ns.entries).value[a].value == t
  {
    BuildEnumMembers(ns);
    assert t in Tokens(Members(ns.keys, ns.entries).value);
  }

  /** `from_str`: the constant registered under `token`, or `KeyError`. */
  function FromStr(e: Enum, token: string): (r: Result<Constant, Error>)
    ensures r.Err? ==> r.error == UnknownToken(token)
    ensures Wf(e) ==> (r.Ok? ==> r.value.value == token)
    ensures Wf(e) && Synced(e) ==> (r.Ok? <==> token in e.values)
  {
    if token in e.lookup.entries then Ok(e.lookup.entries[token]) else Err(UnknownToken(token))
  }

  // ---------------------------------------------------------------------
  // Class bodies and the fixed enumerations
  // ---------------------------------------------------------------------

  /** The namespace of a class body: `__module__`, `__qualname__`, then the body's own attributes. */
  function ClassBody(qualname: string, attrs: seq<(string, Attr)>): (r: Dict<string, Attr>)
    ensures Valid(r)
  {
    PutAll(Empty(), Header(qualname) + attrs)
  }

  /** A body of constant attributes. */
  function ConstBody(members: seq<(string, Constant)>): (r: seq<(string, Attr)>)
    ensures |r| == |members| && forall i :: 0 <= i < |members| ==> r[i] == (members[i].0, Const(members[i].1))
    ensures Firsts(r) == Firsts(members)
  {
    seq(|members|, i requires 0 <= i < |members| => (members[i].0, Const(members[i].1)))
  }

  /** The constants of a body, in order. */
  function Seconds(members: seq<(string, Constant)>): (r: seq<Constant>)
    ensures |r| == |members| && forall i :: 0 <= i < |members| ==> r[i] == members[i].1
  {
    seq(|members|, i requires 0 <= i < |members| => members[i].1)
  }

  /** Members skips names that are not member names. */
  lemma {:induction false} MembersSkipsReserved(pre: seq<string>, keys: seq<string>, ns: map<string, Attr>)
    requires forall k :: k in pre + keys ==> k in ns
    requires forall i :: 0 <= i < |pre| ==> !IsMemberName(pre[i])
    ensures Members(pre + keys, ns) == Members(keys, ns)
  {
    if |pre| > 0 {
      assert (pre + keys)[1..] == pre[1..] + keys;
      MembersSkipsReserved(pre[1..], keys, ns);
    } else {
      assert pre + keys == keys;
    }
  }

  /** Members of a run of distinct constant attributes are exactly their constants. */
  lemma {:induction false} MembersOfConstants(members: seq<(string, Constant)>, ns: map<string, Attr>)
    requires forall i :: 0 <= i < |members| ==> members[i].0 in ns && ns[members[i].0] == Const(members[i].1)
    requires forall i :: 0 <= i < |members| ==> IsMemberName(members[i].0)
    ensures Members(Firsts(members), ns) == Ok(Seconds(members))
  {
    if |members| > 0 {
      MembersOfConstants(members[1..], ns);
      assert Firsts(members)[1..] == Firsts(members[1..]);
      assert Seconds(members) == [members[0].1] + Seconds(members[1..]);
    }
  }

  /** The header entries every class body starts with. */
  const HeaderKeys: seq<string> := ["__module__", "__qualname__"]

  function Header(qualname: string): (r: seq<(string, Attr)>)
    ensures Firsts(r) == HeaderKeys
  {
    [("__module__", Text("vspec.model.constants")), ("__qualname__", Text(qualname))]
  }

  lemma HeaderKeysReserved()
    ensures forall i :: 0 <= i < |HeaderKeys| ==> !IsMemberName(HeaderKeys[i])
  {
    DunderOfCore("module");
    DunderOfCore("qualname");
    assert "__module__" == "__" + "module" + "__";
    assert "__qualname__" == "__" + "qualname" + "__";
  }

  /** Attribute names that are all reserved (dunder or sunder) and distinct. */
  predicate ReservedNames(pre: seq<(string, Attr)>) {
    Distinct(Firsts(pre)) && NoMemberNames(pre)
  }

  /** Attribute names that are all member names and distinct. */
  predicate MemberNames(members: seq<(string, Constant)>) {
    && Distinct(Firsts(members))
    && forall i :: 0 <= i < |members| ==> IsMemberName(members[i].0)
  }

  /** Reserved names and member names never coincide. */
  lemma ReservedBodyDistinct(pre: seq<(string, Attr)>, members: seq<(string, Constant)>)
    requires ReservedNames(pre) && MemberNames(members)
    ensures Firsts(pre + ConstBody(members)) == Firsts(pre) + Firsts(members)
    ensures Distinct(Firsts(pre) + Firsts(members))
  {
    var ks := Firsts(pre) + Firsts(members);
    forall i, j | 0 <= i < j < |ks| ensures ks[i] != ks[j] {
      if i < |pre| && j >= |pre| {
        assert IsMemberName(members[j - |pre|].0);
      }
    }
  }

  /** A namespace of reserved entries followed by distinct members lists them all in order. */
  lemma ReservedBodyKeys(pre: seq<(string, Attr)>, members: seq<(string, Constant)>)
    requires ReservedNames(pre) && MemberNames(members)
    ensures PutAll(Empty(), pre + ConstBody(members)).keys == Firsts(pre) + Firsts(members)
  {
    var attrs := pre + ConstBody(members);
    ReservedBodyDistinct(pre, members);
    assert Empty<string, Attr>().keys + Firsts(attrs) == Firsts(attrs);
    PutAllDistinctKeys(Empty(), attrs);
  }

  /** Each member name of such a namespace is bound to its constant. */
  lemma ReservedBodyEntries(pre: seq<(string, Attr)>, members: seq<(string, Constant)>)
    requires ReservedNames(pre) && MemberNames(members)
    ensures forall i :: 0 <= i < |members| ==>
              members[i].0 in PutAll(Empty(), pre + ConstBody(members)).entries &&
              PutAll(Empty(), pre + ConstBody(members)).entries[members[i].0] == Const(members[i].1)
  {
    ReservedBodyDistinct(pre, members);
    forall i | 0 <= i < |members|
      ensures members[i].0 in PutAll(Empty(), pre + ConstBody(members)).entries
      ensures PutAll(Empty(), pre + ConstBody(members)).entries[members[i].0] == Const(members[i].1)
    {
      BodyEntry(pre, members, i);
    }
  }

  lemma BodyEntry(pre: seq<(string, Attr)>, members: seq<(string, Constant)>, i: nat)
    requires Distinct(Firsts(pre + ConstBody(members))) && i < |members|
    ensures members[i].0 in PutAll(Empty(), pre + ConstBody(members)).entries
    ensures PutAll(Empty(), pre + ConstBody(members)).entries[members[i].0] == Const(members[i].1)
  {
    var attrs := pre + ConstBody(members);
    var j := |pre| + i;
    assert attrs[j] == (members[i].0, Const(members[i].1));
    PutAllDistinct(Empty(), attrs, j);
  }

  /** No reserved entry is named like a member. */
  predicate NoMemberNames(pre: seq<(string, Attr)>) {
    forall p :: 0 <= p < |pre| ==> !IsMemberName(pre[p].0)
  }

  /**
    In a namespace of reserved entries followed by constants, a member name
    is bound to the constant of one of the pairs declaring it.
   */
  lemma MemberBinding(pre: seq<(string, Attr)>, members: seq<(string, Constant)>, k: string)
    requires NoMemberNames(pre) && IsMemberName(k)
    requires k in PutAll(Empty(), pre + ConstBody(members)).entries
    ensures exists q :: 0 <= q < |members| && members[q].0 == k
                        && PutAll(Empty(), pre + ConstBody(members)).entries[k] == Const(members[q].1)
  {
    var attrs := pre + ConstBody(members);
    PutAllEntries(Empty(), attrs);
    LastForWitness(attrs, k);
    var p :| 0 <= p < |attrs| && attrs[p] == (k, LastFor(attrs, k));
    PastReserved(pre, members, p, k);
    BodyIndex(pre, members, p - |pre|);
  }

  /** A member name is declared after the reserved entries. */
  lemma PastReserved(pre: seq<(string, Attr)>, members: seq<(string, Constant)>, p: nat, k: string)
    requires NoMemberNames(pre) && IsMemberName(k)
    requires p < |pre + ConstBody(members)| && (pre + ConstBody(members))[p].0 == k
    ensures p >= |pre|
  {
  }

  /**
    When several pairs declare the same member name, it is bound to the
    constant of the last of them: one at or after any given declaration.
   */
  lemma MemberBindingAfter(pre: seq<(string, Attr)>, members: seq<(string, Constant)>, j: nat)
    requires j < |members|
    ensures members[j].0 in PutAll(Empty(), pre + ConstBody(members)).entries
    ensures exists q :: j <= q < |members| && members[q].0 == members[j].0
                        && PutAll(Empty(), pre + ConstBody(members)).entries[members[j].0] == Const(members[q].1)
  {
    var body := ConstBody(members);
    var attrs := pre + body;
    var k := members[j].0;
    BodyIndex(pre, members, j);
    PutAllLast(Empty(), attrs, |pre| + j);
    var m :| |pre| + j <= m < |attrs| && attrs[m].0 == k && PutAll(Empty(), attrs).entries[k] == attrs[m].1;
    var q := m - |pre|;
    BodyIndex(pre, members, q);
    assert members[q].0 == k && attrs[m].1 == Const(members[q].1);
  }

  lemma BodyIndex(pre: seq<(string, Attr)>, members: seq<(string, Constant)>, q: nat)
    requires q < |members|
    ensures (pre + ConstBody(members))[|pre| + q] == (members[q].0, Const(members[q].1))
  {
  }

  /** With distinct tokens, a later declaration of the same member name hides the earlier constant. */
  lemma LaterDeclarationHides(pre: seq<(string, Attr)>, members: seq<(string, Constant)>, i: nat, j: nat)
    requires Distinct(Tokens(Seconds(members)))
    requires i < j < |members| && members[i].0 == members[j].0
    ensures members[j].0 in PutAll(Empty(), pre + ConstBody(members)).entries
    ensures PutAll(Empty(), pre + ConstBody(members)).entries[members[j].0] != Const(members[i].1)
  {
    MemberBindingAfter(pre, members, j);
    var q :| j <= q < |members| && members[q].0 == members[j].0
             && PutAll(Empty(), pre + ConstBody(members)).entries[members[j].0] == Const(members[q].1);
    assert Tokens(Seconds(members))[q] != Tokens(Seconds(members))[i];
  }

  /** Reserved entries followed by constants always make a valid enumeration body. */
  lemma ReservedThenConstantsOk(pre: seq<(string, Attr)>, members: seq<(string, Constant)>)
    requires NoMemberNames(pre)
    ensures BuildEnum(PutAll(Empty(), pre + ConstBody(members))).Ok?
  {
    var ns := PutAll(Empty(), pre + ConstBody(members));
    forall i | 0 <= i < |ns.keys| && IsMemberName(ns.keys[i]) ensures ns.entries[ns.keys[i]].Const? {
      MemberBinding(pre, members, ns.keys[i]);
    }
  }

  /**
    A member name declared twice keeps only the later constant: when the
    constants' tokens are distinct, the earlier constant's token is not
    registered at all.
   */
  lemma ShadowedMember(pre: seq<(string, Attr)>, members: seq<(string, Constant)>, i: nat, j: nat)
    requires NoMemberNames(pre) && Distinct(Tokens(Seconds(members)))
    requires i < j < |members| && members[i].0 == members[j].0
    ensures BuildEnum(PutAll(Empty(), pre + ConstBody(members))).Ok?
    ensures members[i].1.value !in BuildEnum(PutAll(Empty(), pre + ConstBody(members))).value.values
  {
    var ns := PutAll(Empty(), pre + ConstBody(members));
    var toks := Tokens(Seconds(members));
    ReservedThenConstantsOk(pre, members);
    var t := members[i].1.value;
    assert toks[i] == t;
    if t in BuildEnum(ns).value.values {
      RegisteredIsBound(ns, t);
      var k :| k in ns.entries && IsMemberName(k) && ns.entries[k].Const? && ns.entries[k].c.value == t;
      MemberBinding(pre, members, k);
      var q :| 0 <= q < |members| && members[q].0 == k && ns.entries[k] == Const(members[q].1);
      assert q == i by { assert toks[q] == toks[i]; }
      LaterDeclarationHides(pre, members, i, j);
      assert false;
    }
  }

  /**
    A class whose namespace holds reserved entries and then constants under
    distinct member names: creation succeeds, the tokens are the members'
    tokens in declaration order without repeats, and every registered
    constant is a member.
   */
  lemma {:induction false} ReservedThenConstants(pre: seq<(string, Attr)>, members: seq<(string, Constant)>)
    requires ReservedNames(pre) && MemberNames(members)
    ensures BuildEnum(PutAll(Empty(), pre + ConstBody(members))).Ok?
    ensures BuildEnum(PutAll(Empty(), pre + ConstBody(members))).value.values == Dedup(Tokens(Seconds(members)))
    ensures forall t :: t in BuildEnum(PutAll(Empty(), pre + ConstBody(members))).value.lookup.entries ==>
              BuildEnum(PutAll(Empty(), pre + ConstBody(members))).value.lookup.entries[t] in Seconds(members)
  {
    var ns := PutAll(Empty(), pre + ConstBody(members));
    ReservedBodyKeys(pre, members);
    ReservedBodyEntries(pre, members);
    MembersSkipsReserved(Firsts(pre), Firsts(members), ns.entries);
    MembersOfConstants(members, ns.entries);
    var cs := Seconds(members);
    assert Members(ns.keys, ns.entries) == Ok(cs);
    BuildEnumMembers(ns);
    assert BuildEnum(ns).value.lookup == PutAll(Empty(), ByValue(cs));
    ByValueKeyed(Empty(), cs);
  }

  /**
    A class whose body declares only constants under distinct member names:
    creation succeeds, the tokens are the members' tokens in declaration
    order without repeats, and every registered constant is a member.
   */
  lemma ConstantClass(qualname: string, members: seq<(string, Constant)>)
    requires MemberNames(members)
    ensures BuildEnum(ClassBody(qualname, ConstBody(members))).Ok?
    ensures BuildEnum(ClassBody(qualname, ConstBody(members))).value.values == Dedup(Tokens(Seconds(members)))
    ensures forall t :: t in BuildEnum(ClassBody(qualname, ConstBody(members))).value.lookup.entries ==>
              BuildEnum(ClassBody(qualname, ConstBody(members))).value.lookup.entries[t] in Seconds(members)
  {
    HeaderReserved(qualname);
    ReservedThenConstants(Header(qualname), members);
  }

  lemma HeaderReserved(qualname: string)
    ensures ReservedNames(Header(qualname))
  {
    HeaderKeysReserved();
    assert Firsts(Header(qualname)) == HeaderKeys;
  }

  const BRANCH := Constant("branch", "branch", None, None)
  const RBRANCH := Constant("rbranch", "rbranch", None, None)
  const ATTRIBUTE := Constant("attribute", "attribute", None, None)
  const SENSOR := Constant("sensor", "sensor", None, None)
  const ACTUATOR := Constant("actuator", "actuator", None, None)
  const ELEMENT := Constant("element", "element", None, None)

  /** The body of `class VSSType`. */
  const VSSTypeMembers: seq<(string, Constant)> := [
    ("BRANCH", BRANCH), ("RBRANCH", RBRANCH), ("ATTRIBUTE", ATTRIBUTE),
    ("SENSOR", SENSOR), ("ACTUATOR", ACTUATOR), ("ELEMENT", ELEMENT)
  ]

  /** A constant whose display label is its token. */
  function Plain(token: string): Constant {
    Constant(token, token, None, None)
  }

  /** The attribute names of `class VSSDataType`, in declaration order. */
  const DataTypeNames: seq<string> := [
    "INT8", "UINT8", "INT16", "UINT16", "INT32", "UINT32", "INT64", "UINT64",
    "BOOLEAN", "FLOAT", "DOUBLE", "STRING", "UNIX_TIMESTAMP",
    "INT8_ARRAY", "UINT8_ARRAY", "INT16_ARRAY", "UINT16_ARRAY", "INT32_ARRAY", "UINT32_ARRAY",
    "INT64_ARRAY", "UINT64_ARRAY", "BOOLEAN_ARRAY", "FLOAT_ARRAY", "DOUBLE_ARRAY", "STRING_ARRAY",
    "UNIX_TIMESTAMP_ARRAY"
  ]

  /** The tokens of `class VSSDataType`, in declaration order. */
  const DataTypeTokens: seq<string> := [
    "int8", "uint8", "int16", "uint16", "int32", "uint32", "int64", "uint64",
    "boolean", "float", "double", "string", "UNIX Timestamp",
    "int8[]", "uint8[]", "int16[]", "uint16[]", "int32[]", "uint32[]",
    "int64[]", "uint64[]", "boolean[]", "float[]", "double[]", "string[]",
    "UNIX Timestamp[]"
  ]

  /** The body of `class VSSDataType`: every data type is labelled by its own token. */
  const VSSDataTypeMembers: seq<(string, Constant)> := PlainMembers(DataTypeNames, DataTypeTokens)

  /** The body of `class StringStyle`. */
  const StringStyleMembers: seq<(string, Constant)> := [
    ("NONE", Constant("none", "none", None, None)),
    ("CAMEL_CASE", Constant("camel case", "camelCase", None, None)),
    ("CAMEL_BACK", Constant("camel back", "camelBack", None, None)),
    ("CAPITAL_CASE", Constant("capital case", "capitalcase", None, None)),
    ("CONST_CASE", Constant("const case", "constcase", None, None)),
    ("LOWER_CASE", Constant("lower case", "lowercase", None, None)),
    ("PASCAL_CASE", Constant("pascal case", "pascalcase", None, None)),
    ("SENTENCE_CASE", Constant("sentence case", "sentencecase", None, None)),
    ("SNAKE_CASE", Constant("snake case", "snakecase", None, None)),
    ("SPINAL_CASE", Constant("spinal case", "spinalcase", None, None)),
    ("TITLE_CASE", Constant("title case", "titlecase", None, None)),
    ("TRIM_CASE", Constant("trim case", "trimcase", None, None)),
    ("UPPER_CASE", Constant("upper case", "uppercase", None, None)),
    ("ALPHANUM_CASE", Constant("alphanum case", "alphanumcase", None, None))
  ]

  /** `class VSSType`: creation succeeds and registers only the declared node kinds. */
  function VSSTypeClass(): (r: Result<Enum, Error>)
    ensures r.Ok?
    ensures forall t :: t in r.value.lookup.entries ==> r.value.lookup.entries[t] in Seconds(VSSTypeMembers)
  {
    VSSTypeNames();
    ClassOfConstants("VSSType", VSSTypeMembers);
    BuildEnum(ClassBody("VSSType", ConstBody(VSSTypeMembers)))
  }

  /**
    `class VSSDataType`: creation succeeds, registers the 26 data-type
    tokens in declaration order, and registers only the declared data types.
   */
  function VSSDataTypeClass(): (r: Result<Enum, Error>)
    ensures r.Ok?
    ensures r.value.values == DataTypeTokens
    ensures forall t :: t in r.value.lookup.entries ==> r.value.lookup.entries[t] in Seconds(VSSDataTypeMembers)
  {
    DataTypeClassTokens();
    BuildEnum(ClassBody("VSSDataType", ConstBody(VSSDataTypeMembers)))
  }

  /**
    `class StringStyle`: creation succeeds, registers the fourteen style
    tokens in declaration order, and registers only the declared styles.
   */
  function StringStyleClass(): (r: Result<Enum, Error>)
    ensures r.Ok?
    ensures r.value.values == StyleTokens
    ensures forall t :: t in r.value.lookup.entries ==> r.value.lookup.entries[t] in Seconds(StringStyleMembers)
  {
    StringStyleClassTokens();
    BuildEnum(ClassBody("StringStyle", ConstBody(StringStyleMembers)))
  }

  /** The tokens of `class StringStyle`, in declaration order. */
  const StyleTokens: seq<string> := [
    "none", "camelCase", "camelBack", "capitalcase", "constcase", "lowercase", "pascalcase",
    "sentencecase", "snakecase", "spinalcase", "titlecase", "trimcase", "uppercase", "alphanumcase"
  ]

  lemma StringStyleNamesAreMemberNames()
    ensures forall i :: 0 <= i < |StringStyleMembers| ==> IsMemberName(StringStyleMembers[i].0)
  {
    forall i | 0 <= i < |StringStyleMembers| ensures IsMemberName(StringStyleMembers[i].0) {
      assert StringStyleMembers[i].0[0] != '_';
    }
  }

  /** In a body of constants, every member name is bound to one of the declared constants. */
  lemma {:induction false} ClassBodyBindsDeclared(qualname: string, members: seq<(string, Constant)>, k: string)
    requires k in ClassBody(qualname, ConstBody(members)).entries && IsMemberName(k)
    ensures exists m :: 0 <= m < |members| && ClassBody(qualname, ConstBody(members)).entries[k] == Const(members[m].1)
  {
    var attrs := Header(qualname) + ConstBody(members);
    HeaderKeysReserved();
    PutAllEntries(Empty(), attrs);
    assert Firsts(attrs) == HeaderKeys + Firsts(members);
    LastForWitness(attrs, k);
    var j :| 0 <= j < |attrs| && attrs[j] == (k, LastFor(attrs, k));
    if j < 2 {
      assert false;
    }
    assert attrs[j] == (members[j - 2].0, Const(members[j - 2].1));
  }

  /** In a body of constants, every member name is bound to a constant. */
  lemma ClassOfConstantsOk(qualname: string, members: seq<(string, Constant)>)
    requires forall i :: 0 <= i < |members| ==> IsMemberName(members[i].0)
    ensures BuildEnum(ClassBody(qualname, ConstBody(members))).Ok?
  {
    var ns := ClassBody(qualname, ConstBody(members));
    forall i | 0 <= i < |ns.keys| && IsMemberName(ns.keys[i])
      ensures ns.entries[ns.keys[i]].Const?
    {
      ClassBodyBindsDeclared(qualname, members, ns.keys[i]);
    }
  }

  /** Every constant collected from a body of constants is one of the declared ones. */
  lemma ClassMemberDeclared(qualname: string, members: seq<(string, Constant)>, c: Constant)
    requires Members(ClassBody(qualname, ConstBody(members)).keys, ClassBody(qualname, ConstBody(members)).entries).Ok?
    requires c in Members(ClassBody(qualname, ConstBody(members)).keys, ClassBody(qualname, ConstBody(members)).entries).value
    ensures c in Seconds(members)
  {
    var ns := ClassBody(qualname, ConstBody(members));
    MembersDeclared(ns.keys, ns.entries, c);
    var i :| 0 <= i < |ns.keys| && IsMemberName(ns.keys[i]) && ns.entries[ns.keys[i]] == Const(c);
    ClassBodyBindsDeclared(qualname, members, ns.keys[i]);
    var m :| 0 <= m < |members| && ns.entries[ns.keys[i]] == Const(members[m].1);
    assert c == Seconds(members)[m];
  }

  /**
    A class whose body declares only constants under member names (repeats
    allowed): creation succeeds and every registered constant is one of
    the declared ones.
   */
  lemma {:induction false} ClassOfConstants(qualname: string, members: seq<(string, Constant)>)
    requires forall i :: 0 <= i < |members| ==> IsMemberName(members[i].0)
    ensures BuildEnum(ClassBody(qualname, ConstBody(members))).Ok?
    ensures forall t :: t in BuildEnum(ClassBody(qualname, ConstBody(members))).value.lookup.entries ==>
              BuildEnum(ClassBody(qualname, ConstBody(members))).value.lookup.entries[t] in Seconds(members)
  {
    var ns := ClassBody(qualname, ConstBody(members));
    ClassOfConstantsOk(qualname, members);
    var e := BuildEnum(ns).value;
    BuildEnumMembers(ns);
    forall t | t in e.lookup.entries
      ensures e.lookup.entries[t] in Seconds(members)
    {
      ClassMemberDeclared(qualname, members, e.lookup.entries[t]);
    }
  }

  /** The declared names of `VSSType` are distinct member names. */
  lemma VSSTypeNames()
    ensures Distinct(Firsts(VSSTypeMembers))
    ensures forall i :: 0 <= i < |VSSTypeMembers| ==> IsMemberName(VSSTypeMembers[i].0)
  {
    var ms := VSSTypeMembers;
    var names := Firsts(ms);
    assert names == ["BRANCH", "RBRANCH", "ATTRIBUTE", "SENSOR", "ACTUATOR", "ELEMENT"];
    forall i, j | 0 <= i < j < |names| ensures names[i] != names[j] {
      assert names[i][0] != names[j][0] || names[i][1] != names[j][1];
    }
    forall i | 0 <= i < |ms| ensures IsMemberName(ms[i].0) {
      assert ms[i].0[0] != '_';
    }
  }

  /** The tokens of `VSSType` are six distinct strings, each its constant's label. */
  lemma VSSTypeTokens()
    ensures Tokens(Seconds(VSSTypeMembers)) == ["branch", "rbranch", "attribute", "sensor", "actuator", "element"]
    ensures Distinct(Tokens(Seconds(VSSTypeMembers)))
    ensures forall c :: c in Seconds(VSSTypeMembers) ==> c.display == c.value
  {
    var toks := Tokens(Seconds(VSSTypeMembers));
    assert toks == ["branch", "rbranch", "attribute", "sensor", "actuator", "element"];
    forall i, j | 0 <= i < j < |toks| ensures toks[i] != toks[j] {
      assert toks[i][0] != toks[j][0] || toks[i][1] != toks[j][1];
    }
  }

  /** `VSSType` has exactly the six node kinds, in declaration order, each labelled by its own token. */
  lemma VSSTypeTable()
    ensures VSSTypeClass().Ok?
    ensures VSSTypeClass().value.values == ["branch", "rbranch", "attribute", "sensor", "actuator", "element"]
    ensures |VSSTypeClass().value.values| == 6
    ensures forall t :: t in VSSTypeClass().value.lookup.entries ==>
              VSSTypeClass().value.lookup.entries[t].display == VSSTypeClass().value.lookup.entries[t].value
  {
    VSSTypeNames();
    VSSTypeTokens();
    ConstantClass("VSSType", VSSTypeMembers);
    DedupOfDistinct(Tokens(Seconds(VSSTypeMembers)));
  }

  /** A body of constants each labelled by its own token. */
  function PlainMembers(names: seq<string>, tokens: seq<string>): (r: seq<(string, Constant)>)
    requires |names| == |tokens|
    ensures |r| == |names| && forall i :: 0 <= i < |names| ==> r[i].0 == names[i]
    ensures forall c :: c in Seconds(r) ==> c.display == c.value
  {
    seq(|names|, i requires 0 <= i < |names| => (names[i], Plain(tokens[i])))
  }

  /** The names and tokens of a body of plain constants are the lists it was built from. */
  lemma PlainMembersParts(names: seq<string>, tokens: seq<string>)
    requires |names| == |tokens|
    ensures Firsts(PlainMembers(names, tokens)) == names
    ensures Tokens(Seconds(PlainMembers(names, tokens))) == tokens
  {
  }

  /** Every `VSSDataType` constant is labelled by its own token. */
  lemma VSSDataTypeTable()
    ensures VSSDataTypeClass().Ok?
    ensures forall t :: t in VSSDataTypeClass().value.lookup.entries ==>
              VSSDataTypeClass().value.lookup.entries[t].display == VSSDataTypeClass().value.lookup.entries[t].value
  {
    DataTypeNamesAreMemberNames();
    ClassOfConstants("VSSDataType", VSSDataTypeMembers);
  }

  lemma DataTypeNamesAreMemberNames()
    ensures forall i :: 0 <= i < |VSSDataTypeMembers| ==> IsMemberName(VSSDataTypeMembers[i].0)
  {
    forall i | 0 <= i < |DataTypeNames| ensures IsMemberName(DataTypeNames[i]) {
      assert DataTypeNames[i][0] != '_';
    }
  }

  /** The data-type class registers exactly its declared tokens, in order. */
  lemma DataTypeClassTokens()
    ensures BuildEnum(ClassBody("VSSDataType", ConstBody(VSSDataTypeMembers))).Ok?
    ensures BuildEnum(ClassBody("VSSDataType", ConstBody(VSSDataTypeMembers))).value.values == DataTypeTokens
    ensures forall t :: t in BuildEnum(ClassBody("VSSDataType", ConstBody(VSSDataTypeMembers))).value.lookup.entries ==>
              BuildEnum(ClassBody("VSSDataType", ConstBody(VSSDataTypeMembers))).value.lookup.entries[t] in Seconds(VSSDataTypeMembers)
  {
    DataTypeNamesAreMemberNames();
    DataTypeNamesDistinct();
    ConstantClass("VSSDataType", VSSDataTypeMembers);
    DataTypeTokensDistinct();
    DedupOfDistinct(DataTypeTokens);
  }

  // The names and the tokens of the fixed tables are told apart by their
  // length and two of their characters; the tables below map that
  // signature back to the position of the declaration, which makes each
  // list free of repeats without comparing every pair.

  /** Length and the characters at `p` and `q` of a text (a space where it is too short). */
  function Signature(s: string, p: nat, q: nat): (nat, char, char) {
    (|s|, if p < |s| then s[p] else ' ', if q < |s| then s[q] else ' ')
  }

  /** A list on which some function recovers every element's position has no repeats. */
  lemma DistinctByPosition(ss: seq<string>, position: string -> int)
    requires forall i :: 0 <= i < |ss| ==> position(ss[i]) == i
    ensures Distinct(ss)
  {
  }

  /** Where a data-type token's signature (positions 0 and 4) is declared. */
  function TokenPosition(g: (nat, char, char)): int {
    match g
    case (4, 'i', _) => 0
    case (5, 'u', '8') => 1
    case (5, 'i', '6') => 2
    case (6, 'u', '1') => 3
    case (5, 'i', '2') => 4
    case (6, 'u', '3') => 5
    case (5, 'i', '4') => 6
    case (6, 'u', '6') => 7
    case (7, 'b', _) => 8
    case (5, 'f', _) => 9
    case (6, 'd', _) => 10
    case (6, 's', _) => 11
    case (14, _, _) => 12
    case (6, 'i', _) => 13
    case (7, 'u', '8') => 14
    case (7, 'i', '6') => 15
    case (8, 'u', '1') => 16
    case (7, 'i', '2') => 17
    case (8, 'u', '3') => 18
    case (7, 'i', '4') => 19
    case (8, 'u', '6') => 20
    case (9, _, _) => 21
    case (7, 'f', _) => 22
    case (8, 'd', _) => 23
    case (8, 's', _) => 24
    case (16, _, _) => 25
    case _ => -1
  }

  /** Where a data-type name's signature (positions 0 and 4) is declared. */
  function NamePosition(g: (nat, char, char)): int {
    match g
    case (4, 'I', _) => 0
    case (5, 'U', '8') => 1
    case (5, 'I', '6') => 2
    case (6, 'U', '1') => 3
    case (5, 'I', '2') => 4
    case (6, 'U', '3') => 5
    case (5, 'I', '4') => 6
    case (6, 'U', '6') => 7
    case (7, 'B', _) => 8
    case (5, 'F', _) => 9
    case (6, 'D', _) => 10
    case (6, 'S', _) => 11
    case (14, _, _) => 12
    case (10, _, _) => 13
    case (11, 'U', _) => 14
    case (11, 'I', '6') => 15
    case (12, 'U', '1') => 16
    case (11, 'I', '2') => 17
    case (12, 'U', '3') => 18
    case (11, 'I', '4') => 19
    case (12, 'U', '6') => 20
    case (13, _, _) => 21
    case (11, 'F', _) => 22
    case (12, 'D', _) => 23
    case (12, 'S', _) => 24
    case (20, _, _) => 25
    case _ => -1
  }

  lemma DataTypeTokensDistinct()
    ensures Distinct(DataTypeTokens)
    ensures Tokens(Seconds(VSSDataTypeMembers)) == DataTypeTokens
  {
    PlainMembersParts(DataTypeNames, DataTypeTokens);
    forall i | 0 <= i < |DataTypeTokens| ensures TokenPosition(Signature(DataTypeTokens[i], 0, 4)) == i {
    }
    DistinctByPosition(DataTypeTokens, s => TokenPosition(Signature(s, 0, 4)));
  }

  lemma DataTypeNamesDistinct()
    ensures Distinct(DataTypeNames)
    ensures Firsts(VSSDataTypeMembers) == DataTypeNames
  {
    PlainMembersParts(DataTypeNames, DataTypeTokens);
    forall i | 0 <= i < |DataTypeNames| ensures NamePosition(Signature(DataTypeNames[i], 0, 4)) == i {
    }
    DistinctByPosition(DataTypeNames, s => NamePosition(Signature(s, 0, 4)));
  }

  /** The style class registers exactly its declared tokens, in order. */
  lemma StringStyleClassTokens()
    ensures BuildEnum(ClassBody("StringStyle", ConstBody(StringStyleMembers))).Ok?
    ensures BuildEnum(ClassBody("StringStyle", ConstBody(StringStyleMembers))).value.values == StyleTokens
    ensures forall t :: t in BuildEnum(ClassBody("StringStyle", ConstBody(StringStyleMembers))).value.lookup.entries ==>
              BuildEnum(ClassBody("StringStyle", ConstBody(StringStyleMembers))).value.lookup.entries[t] in Seconds(StringStyleMembers)
  {
    StringStyleNamesAreMemberNames();
    StyleNamesDistinct();
    ConstantClass("StringStyle", StringStyleMembers);
    StyleTokensOfMembers();
    StyleTokensDistinct();
    DedupOfDistinct(StyleTokens);
  }

  lemma StyleTokensOfMembers()
    ensures Tokens(Seconds(StringStyleMembers)) == StyleTokens
  {
    var toks := Tokens(Seconds(StringStyleMembers));
    forall i | 0 <= i < |toks| ensures toks[i] == StyleTokens[i] {
    }
  }

  /** Where a style token's signature (positions 0 and 5) is declared. */
  function StyleTokenPosition(g: (nat, char, char)): int {
    match g
    case (4, _, _) => 0
    case (9, 'c', 'C') => 1
    case (9, 'c', 'B') => 2
    case (11, _, _) => 3
    case (9, 'c', 'c') => 4
    case (9, 'l', _) => 5
    case (10, 'p', _) => 6
    case (12, 's', _) => 7
    case (9, 's', _) => 8
    case (10, 's', _) => 9
    case (9, 't', _) => 10
    case (8, _, _) => 11
    case (9, 'u', _) => 12
    case (12, 'a', _) => 13
    case _ => -1
  }

  /** Where a style name's signature (positions 2 and 6) is declared. */
  function StyleNamePosition(g: (nat, char, char)): int {
    match g
    case (4, _, _) => 0
    case (10, 'M', 'C') => 1
    case (10, 'M', 'B') => 2
    case (12, 'P', _) => 3
    case (10, 'N', _) => 4
    case (10, 'W', _) => 5
    case (11, 'S', _) => 6
    case (13, 'N', _) => 7
    case (10, 'A', _) => 8
    case (11, 'I', _) => 9
    case (10, 'T', _) => 10
    case (9, _, _) => 11
    case (10, 'P', _) => 12
    case (13, 'P', _) => 13
    case _ => -1
  }

  lemma StyleTokensDistinct()
    ensures Distinct(StyleTokens)
  {
    forall i | 0 <= i < |StyleTokens| ensures StyleTokenPosition(Signature(StyleTokens[i], 0, 5)) == i {
    }
    DistinctByPosition(StyleTokens, s => StyleTokenPosition(Signature(s, 0, 5)));
  }

  lemma StyleNamesDistinct()
    ensures Distinct(Firsts(StringStyleMembers))
  {
    var names := Firsts(StringStyleMembers);
    assert names == ["NONE", "CAMEL_CASE", "CAMEL_BACK", "CAPITAL_CASE", "CONST_CASE", "LOWER_CASE", "PASCAL_CASE",
                     "SENTENCE_CASE", "SNAKE_CASE", "SPINAL_CASE", "TITLE_CASE", "TRIM_CASE", "UPPER_CASE", "ALPHANUM_CASE"];
    forall i | 0 <= i < |names| ensures StyleNamePosition(Signature(names[i], 2, 6)) == i {
    }
    DistinctByPosition(names, s => StyleNamePosition(Signature(s, 2, 6)));
  }
}
