/** The memo table from a chain and a public key to the address derived from them. */
module AddressCache {
  import opened Results
  import opened Text

  /** An address and no error, or an error. The empty address without an error is what an empty key and an unknown
      chain give. */
  datatype Lookup = Address(address: string) | Failure

  const NO_ADDRESS := Address("")

  /** The derivations themselves: one for each chain that the switch names, one for all EVM chains. None is an
      error. */
  datatype Derivations = Derivations(named: (string, string) -> Option<string>, evm: string -> Option<string>)

  const NAMED_CHAINS := {"XRP", "GAIA", "SWITCHLY", "BTC", "LTC", "DOGE", "BCH", "XLM"}
  const EVM_CHAINS := {"ETH", "AVAX", "BSC", "BASE"}

  /** `IsEVM`. */
  predicate IsEVM(chain: string) {
    exists evm :: evm in EVM_CHAINS && SameName(chain, evm)
  }

  /** No letter of these names has another spelling in upper case. */
  lemma IsEVMExactly(chain: string)
    ensures IsEVM(chain) <==> Upper(chain) in EVM_CHAINS
  {
    hide SameName;
    forall evm | evm in EVM_CHAINS ensures SameName(chain, evm) <==> Upper(chain) == evm {
      assert Upper(evm) == evm && 'K' !in evm && IsAscii(evm);
      NameOnce(chain, evm);
    }
  }

  lemma NameOnce(s: string, t: string)
    requires IsUpper(t) && IsAscii(t) && Lacks(t, 'K')
    ensures SameName(s, t) <==> Upper(s) == t
  {
    UpperAsciiFolds(t);
    if SameName(s, t) {
      assert |s| == |t|;
      forall k | 0 <= k < |t| ensures Upper(s)[k] == t[k] {
        assert Fold(Upper(s))[k] == Fold(t)[k] == t[k];
        assert t[k] in t;
      }
    }
  }

  /** The derivation that the switch selects for the chain as it is given, if any. */
  function Derived(d: Derivations, chain: string, pubKey: string): Option<Lookup> {
    if chain in NAMED_CHAINS then Some(LookupOf(d.named(chain, pubKey)))
    else if IsEVM(chain) then Some(LookupOf(d.evm(pubKey)))
    else None
  }

  function LookupOf(a: Option<string>): Lookup {
    if a.Some? then Address(a.value) else Failure
  }

  /** What the uncached derivation gives. */
  function Direct(d: Derivations, chain: string, pubKey: string): Lookup {
    if |pubKey| == 0 then NO_ADDRESS
    else
      match Derived(d, chain, pubKey)
      case None => NO_ADDRESS
      case Some(o) => o
  }

  /** Which derivation an address comes from, for every chain: names are told apart by case, EVM chains are not. */
  lemma DirectExactly(d: Derivations, chain: string, pubKey: string)
    ensures pubKey == "" ==> Direct(d, chain, pubKey) == Address("")
    ensures pubKey != "" && IsNamed(chain) ==> Direct(d, chain, pubKey) == LookupOf(d.named(chain, pubKey))
    ensures pubKey != "" && IsEthereumLike(Upper(chain)) ==> Direct(d, chain, pubKey) == LookupOf(d.evm(pubKey))
    ensures !IsNamed(chain) && !IsEthereumLike(Upper(chain)) ==> Direct(d, chain, pubKey) == Address("")
  {
    IsEVMExactly(chain);
    if chain in NAMED_CHAINS {
      ChainNames(chain);
    }
  }

  predicate IsNamed(chain: string) {
    || chain == "XRP" || chain == "GAIA" || chain == "SWITCHLY" || chain == "BTC"
    || chain == "LTC" || chain == "DOGE" || chain == "BCH" || chain == "XLM"
  }

  predicate IsEthereumLike(chain: string) {
    chain == "ETH" || chain == "AVAX" || chain == "BSC" || chain == "BASE"
  }

  type Table = map<string, string>

  function Key(chain: string, pubKey: string): string {
    Upper(chain) + "-" + pubKey
  }

  lemma KeyExample()
    ensures Key("btc", "k") == "BTC-k"
  {
    assert Upper("btc") == "BTC";
  }

  function Get(d: Derivations, table: Table, chain: string, pubKey: string): Lookup {
    if |pubKey| > 0 && Key(chain, pubKey) in table then Address(table[Key(chain, pubKey)])
    else Direct(d, chain, pubKey)
  }

  function Stored(d: Derivations, table: Table, chain: string, pubKey: string): Table {
    if |pubKey| == 0 || Key(chain, pubKey) in table then table
    else
      match Derived(d, chain, pubKey)
      case Some(Address(a)) => table[Key(chain, pubKey) := a]
      case _ => table
  }

  class Cache {
    const d: Derivations
    var table: Table

    constructor (d: Derivations)
      ensures this.d == d && table == map[]
    {
      this.d := d;
      table := map[];
    }

    method GetAddress(chain: string, pubKey: string) returns (r: Lookup)
      modifies this
      ensures r == Get(d, old(table), chain, pubKey)
      ensures table == Stored(d, old(table), chain, pubKey)
    {
      if |pubKey| == 0 {
        return NO_ADDRESS;
      }
      var key := Upper(chain) + "-" + pubKey;
      if key in table {
        return Address(table[key]);
      }
      var derived: Option<string>;
      if chain in NAMED_CHAINS {
        derived := d.named(chain, pubKey);
      } else {
        if !IsEVM(chain) {
          return NO_ADDRESS;
        }
        derived := d.evm(pubKey);
      }
      if derived.None? {
        return Failure;
      }
      table := table[key := derived.value];
      return Address(derived.value);
    }
  }

  // ----- whole runs -----

  datatype Call = Call(chain: string, pubKey: string)

  function Run(d: Derivations, calls: seq<Call>): Table {
    if |calls| == 0 then map[]
    else
      var last := calls[|calls| - 1];
      Stored(d, Run(d, calls[..|calls| - 1]), last.chain, last.pubKey)
  }

  /** A chain and key whose entry this is. */
  predicate EntryOf(d: Derivations, key: string, address: string, chain: string, pubKey: string) {
    && (chain in NAMED_CHAINS || chain in EVM_CHAINS) && |pubKey| > 0
    && key == Key(chain, pubKey) && Direct(d, chain, pubKey) == Address(address)
  }

  ghost predicate Sound(d: Derivations, table: Table) {
    forall key :: key in table ==> exists chain, pubKey :: EntryOf(d, key, table[key], chain, pubKey)
  }

  lemma ChainNames(chain: string)
    requires chain in NAMED_CHAINS || chain in EVM_CHAINS
    ensures IsUpper(chain) && Lacks(chain, '-')
  {
  }

  /** v is u followed by a dash and something that p begins with, before a dash and q. */
  ghost predicate Shifted(u: string, p: string, v: string, q: string) {
    exists x :: v == u + "-" + x && p == x + "-" + q
  }

  /** Chain and key can be read off the string, unless a dash in one chain plays the part of the separator and a dash
      in the other's key that of a dash in the chain. */
  lemma KeyInjective(chain: string, pubKey: string, chain': string, pubKey': string)
    ensures Key(chain, pubKey) == Key(chain', pubKey')
       <==> || (Upper(chain) == Upper(chain') && pubKey == pubKey')
            || Shifted(Upper(chain), pubKey, Upper(chain'), pubKey')
            || Shifted(Upper(chain'), pubKey', Upper(chain), pubKey)
  {
    hide Upper;
    SameJoin(Upper(chain), pubKey, Upper(chain'), pubKey');
    SameJoin(Upper(chain'), pubKey', Upper(chain), pubKey);
  }

  lemma SameJoin(u: string, p: string, v: string, q: string)
    ensures |u| == |v| ==> (u + "-" + p == v + "-" + q <==> u == v && p == q)
    ensures |u| < |v| ==> (u + "-" + p == v + "-" + q <==> Shifted(u, p, v, q))
    ensures Shifted(u, p, v, q) ==> |u| < |v|
  {
    var s, t := u + "-" + p, v + "-" + q;
    if s == t && |u| == |v| {
      assert u == s[..|u|] && v == t[..|u|] && p == s[|u| + 1..] && q == t[|u| + 1..];
    }
    if s == t && |u| < |v| {
      var x := v[|u| + 1..];
      assert v == t[..|v|] && u == s[..|u|] && s[|u|] == '-';
      assert v == u + "-" + x;
      assert p == s[|u| + 1..] == x + "-" + q;
    }
    if Shifted(u, p, v, q) {
      var x :| v == u + "-" + x && p == x + "-" + q;
      assert s == u + "-" + x + "-" + q == t;
    }
  }

  lemma ShiftedDashes(u: string, p: string, v: string, q: string)
    ensures Shifted(u, p, v, q) ==> !Lacks(v, '-') && !Lacks(p, '-')
  {
    if x :| v == u + "-" + x && p == x + "-" + q {
      assert v[|u|] == '-' && p[|x|] == '-';
    }
  }

  lemma StoredEntry(d: Derivations, chain: string, pubKey: string)
    requires |pubKey| > 0 && Derived(d, chain, pubKey).Some? && Derived(d, chain, pubKey).value.Address?
    ensures EntryOf(d, Key(chain, pubKey), Derived(d, chain, pubKey).value.address, Upper(chain), pubKey)
  {
    UpperIdempotent(chain);
    if chain in NAMED_CHAINS {
      ChainNames(chain);
    } else {
      IsEVMExactly(chain);
      IsEVMExactly(Upper(chain));
      NotBoth(Upper(chain));
    }
  }

  lemma NotBoth(chain: string)
    requires chain in EVM_CHAINS
    ensures chain !in NAMED_CHAINS
  {
  }

  /** After any calls, with chains in any spelling, every entry is what the derivation gives for a chain and key whose
      string it stands under; an outcome that is an error is never stored. */
  lemma {:induction false} RunSound(d: Derivations, calls: seq<Call>)
    ensures Sound(d, Run(d, calls))
  {
    hide Derived, EntryOf, Key;
    if |calls| > 0 {
      var before, last := Run(d, calls[..|calls| - 1]), calls[|calls| - 1];
      RunSound(d, calls[..|calls| - 1]);
      if |last.pubKey| > 0 && Derived(d, last.chain, last.pubKey).Some?
         && Derived(d, last.chain, last.pubKey).value.Address? {
        StoredEntry(d, last.chain, last.pubKey);
      }
    }
  }

  // ----- when the cache shows -----

  /** A spelling of a named chain that the switch does not recognise. */
  predicate IsAlias(chain: string) {
    chain !in NAMED_CHAINS && Upper(chain) in NAMED_CHAINS
  }

  /** Whether the cache can be noticed for this chain and key: some calls make the next one return something else
      than the derivation. */
  ghost predicate Noticeable(d: Derivations, chain: string, pubKey: string) {
    exists calls :: Get(d, Run(d, calls), chain, pubKey) != Direct(d, chain, pubKey)
  }

  /** For all derivations, chains and keys: the cache can be noticed exactly when some supported chain and key share the
      string and have another address. */
  lemma NoticeableExactly(d: Derivations, chain: string, pubKey: string)
    ensures Noticeable(d, chain, pubKey)
       <==> |pubKey| > 0
            && exists c, q, a :: EntryOf(d, Key(chain, pubKey), a, c, q) && Address(a) != Direct(d, chain, pubKey)
  {
    hide Direct, EntryOf, Key;
    forall calls | Get(d, Run(d, calls), chain, pubKey) != Direct(d, chain, pubKey)
      ensures |pubKey| > 0
      ensures exists c, q, a :: EntryOf(d, Key(chain, pubKey), a, c, q) && Address(a) != Direct(d, chain, pubKey)
    {
      RunSound(d, calls);
    }
    forall c, q, a | |pubKey| > 0 && EntryOf(d, Key(chain, pubKey), a, c, q) && Address(a) != Direct(d, chain, pubKey)
      ensures Noticeable(d, chain, pubKey)
    {
      ShownByOneCall(d, chain, pubKey, c, q, a);
    }
  }

  /** One call for the other chain and key is enough. */
  lemma ShownByOneCall(d: Derivations, chain: string, pubKey: string, c: string, q: string, a: string)
    requires |pubKey| > 0 && EntryOf(d, Key(chain, pubKey), a, c, q) && Address(a) != Direct(d, chain, pubKey)
    ensures Noticeable(d, chain, pubKey)
  {
    hide Key;
    ChainNames(c);
    var calls := [Call(c, q)];
    assert calls[..0] == [];
    assert Run(d, calls) == Stored(d, map[], c, q) == map[Key(c, q) := a];
    assert Get(d, Run(d, calls), chain, pubKey) == Address(a);
  }

  /** Keys from which an address is derived have no dash. It holds of the source's keys, which are bech32. */
  ghost predicate DashFree(d: Derivations) {
    && (forall chain, pubKey :: d.named(chain, pubKey).Some? ==> Lacks(pubKey, '-'))
    && (forall pubKey :: d.evm(pubKey).Some? ==> Lacks(pubKey, '-'))
  }

  /** Then an entry belongs to one chain and key only, whatever chains and keys are asked for. */
  lemma EntryUnique(
    d: Derivations, key: string, a: string, chain: string, pubKey: string, chain': string, pubKey': string)
    requires DashFree(d) && EntryOf(d, key, a, chain, pubKey) && key == Key(chain', pubKey')
    ensures chain == Upper(chain') && pubKey == pubKey'
  {
    hide Key, Upper;
    ChainNames(chain);
    EntryKeyLacksDash(d, key, a, chain, pubKey);
    KeyInjective(chain, pubKey, chain', pubKey');
    ShiftedDashes(Upper(chain), pubKey, Upper(chain'), pubKey');
    ShiftedDashes(Upper(chain'), pubKey', Upper(chain), pubKey);
  }

  lemma EntryKeyLacksDash(d: Derivations, key: string, a: string, chain: string, pubKey: string)
    requires DashFree(d) && EntryOf(d, key, a, chain, pubKey)
    ensures Lacks(pubKey, '-')
  {
    ChainNames(chain);
  }

  /** In a sound table, a call returns what the derivation gives, except for an alias of a named chain, for which it
      may return what is stored for that chain. */
  lemma GetIsDirect(d: Derivations, table: Table, chain: string, pubKey: string)
    requires DashFree(d) && Sound(d, table)
    ensures Get(d, table, chain, pubKey) == Direct(d, chain, pubKey)
         || (IsAlias(chain) && Get(d, table, chain, pubKey) == Direct(d, Upper(chain), pubKey))
  {
    hide Derived, EntryOf, Key, DashFree;
    var key := Key(chain, pubKey);
    if |pubKey| > 0 && key in table {
      var c, p :| EntryOf(d, key, table[key], c, p);
      EntryUnique(d, key, table[key], c, p, chain, pubKey);
      EntryIsDirect(d, key, table[key], c, p);
      if !IsAlias(chain) {
        CanonicalDirect(d, chain, pubKey, key, table[key]);
      }
    }
  }

  lemma EntryIsDirect(d: Derivations, key: string, a: string, chain: string, pubKey: string)
    requires EntryOf(d, key, a, chain, pubKey)
    ensures Direct(d, chain, pubKey) == Address(a)
  {
  }

  /** A chain that is no alias is derived like its upper-case form. */
  lemma CanonicalDirect(d: Derivations, chain: string, pubKey: string, key: string, a: string)
    requires !IsAlias(chain) && EntryOf(d, key, a, Upper(chain), pubKey)
    ensures Direct(d, chain, pubKey) == Direct(d, Upper(chain), pubKey)
  {
    UpperIdempotent(chain);
    if chain in NAMED_CHAINS {
      ChainNames(chain);
    } else {
      assert Upper(chain) in EVM_CHAINS;
      IsEVMExactly(chain);
      IsEVMExactly(Upper(chain));
      NotBoth(Upper(chain));
    }
  }

  /** Exactly when the cache is transparent, for every chain: it shows only for an alias of a named chain (such as
      lower-case letters) whose key has a non-empty address under the chain's own name. */
  lemma TransparentExactly(d: Derivations, chain: string, pubKey: string)
    requires DashFree(d)
    ensures Noticeable(d, chain, pubKey)
       <==> |pubKey| > 0 && IsAlias(chain) && Direct(d, Upper(chain), pubKey) != Failure
            && Direct(d, Upper(chain), pubKey) != NO_ADDRESS
  {
    hide Direct, IsAlias, EntryOf, DashFree, Key;
    NoticeableExactly(d, chain, pubKey);
    forall c, q, a | EntryOf(d, Key(chain, pubKey), a, c, q)
      ensures Direct(d, Upper(chain), pubKey) == Address(a)
      ensures !IsAlias(chain) ==> Direct(d, chain, pubKey) == Address(a)
    {
      EntryUnique(d, Key(chain, pubKey), a, c, q, chain, pubKey);
      EntryIsDirect(d, Key(chain, pubKey), a, c, q);
      if !IsAlias(chain) {
        CanonicalDirect(d, chain, pubKey, Key(chain, pubKey), a);
      }
    }
    if IsAlias(chain) {
      DirectOfAlias(d, chain, pubKey);
      if |pubKey| > 0 && Direct(d, Upper(chain), pubKey).Address? {
        AliasEntry(d, chain, pubKey);
      }
    }
  }

  lemma DirectOfAlias(d: Derivations, chain: string, pubKey: string)
    requires IsAlias(chain)
    ensures Direct(d, chain, pubKey) == NO_ADDRESS
  {
    IsEVMExactly(chain);
    NotNamedAndEvm(Upper(chain));
  }

  lemma AliasEntry(d: Derivations, chain: string, pubKey: string)
    requires |pubKey| > 0 && IsAlias(chain) && Direct(d, Upper(chain), pubKey).Address?
    ensures EntryOf(d, Key(chain, pubKey), Direct(d, Upper(chain), pubKey).address, Upper(chain), pubKey)
  {
    UpperIdempotent(chain);
  }

  lemma NotNamedAndEvm(chain: string)
    requires chain in NAMED_CHAINS
    ensures chain !in EVM_CHAINS
  {
  }

  /** That keys have no dash is needed: with a key that has one, the cache shows for a chain that is no alias. */
  lemma DashedKeyShows(d: Derivations)
    requires d.named("BTC", "X-y") == Some("address")
    ensures !IsAlias("BTC-X") && Noticeable(d, "BTC-X", "y")
  {
    hide Derived;
    assert Upper("BTC") == "BTC" && Upper("BTC-X") == "BTC-X";
    assert Key("BTC-X", "y") == Key("BTC", "X-y");
    IsEVMExactly("BTC-X");
    DirectOfBtc(d);
    assert EntryOf(d, Key("BTC-X", "y"), "address", "BTC", "X-y");
    ShownByOneCall(d, "BTC-X", "y", "BTC", "X-y", "address");
  }

  lemma DirectOfBtc(d: Derivations)
    requires d.named("BTC", "X-y") == Some("address")
    ensures Direct(d, "BTC", "X-y") == Address("address")
    ensures Direct(d, "BTC-X", "y") == NO_ADDRESS
  {
    IsEVMExactly("BTC-X");
    assert Upper("BTC-X") == "BTC-X";
  }

  /** For example, a lower-case chain gives no address, and one after a call in upper case. */
  lemma LowerCaseShows(d: Derivations)
    requires d.named("BTC", "k") == Some("address")
    ensures Direct(d, "btc", "k") == NO_ADDRESS
    ensures Get(d, Run(d, [Call("BTC", "k")]), "btc", "k") == Address("address")
  {
    assert Upper("btc") == "BTC" == Upper("BTC");
    IsEVMExactly("btc");
    assert [Call("BTC", "k")][..0] == [];
    assert Run(d, [Call("BTC", "k")]) == map[Key("BTC", "k") := "address"];
  }
}
