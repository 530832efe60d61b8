/** Exporting an account to a `.scexport` file and importing it back, with the credential keys
    renamed at the boundary. */
module AccountExports {
  import opened Common
  import opened Scexport
  import Timestamp
  import Utf8

  type Credentials = map<string, string>
  type Mapping = seq<(string, string)>

  const PROVIDER_APPLE := "apple"

  const IOS_TO_SCHEMA: Mapping := [
    ("issuerID", "issuerId"),
    ("privateKeyID", "keyId"),
    ("privateKey", "privateKeyP8")
  ]

  const SCHEMA_TO_IOS: Mapping := [
    ("issuerId", "issuerID"),
    ("keyId", "privateKeyID"),
    ("privateKeyP8", "privateKey")
  ]

  // ---------------------------------------------------------------------------
  // Renaming keys
  // ---------------------------------------------------------------------------

  /** The first entry of the mapping for `key` renames it; a key without one keeps its name. */
  function Rename(m: Mapping, key: string): string {
    if m == [] then key
    else if m[0].0 == key then m[0].1
    else Rename(m[1..], key)
  }

  /** `order` lists the keys of `source`, each once: an order a hash map may iterate in. */
  ghost predicate Enumerates(order: seq<string>, source: Credentials) {
    (forall i | 0 <= i < |order| :: order[i] in source) &&
    (forall k | k in source :: k in order) &&
    (forall i, j | 0 <= i < j < |order| :: order[i] != order[j])
  }

  /** The renamed map when the entries come in this order; of two entries renamed to one key the
      later wins. */
  function RemapAlong(source: Credentials, m: Mapping, order: seq<string>): Credentials
    requires forall i | 0 <= i < |order| :: order[i] in source
  {
    if order == [] then map[]
    else
      var last := order[|order| - 1];
      RemapAlong(source, m, order[..|order| - 1])[Rename(m, last) := source[last]]
  }

  method Remap(source: Credentials, m: Mapping, order: seq<string>) returns (out: Credentials)
    requires Enumerates(order, source)
    ensures out == RemapAlong(source, m, order)
  {
    out := map[];
    var i := 0;
    while i < |order|
      invariant 0 <= i <= |order|
      invariant out == RemapAlong(source, m, order[..i])
    {
      var renamed := FindRename(m, order[i]);
      out := out[renamed := source[order[i]]];
      assert order[..i + 1][..i] == order[..i];
      i := i + 1;
    }
    assert order[..i] == order;
  }

  method FindRename(m: Mapping, key: string) returns (renamed: string)
    ensures renamed == Rename(m, key)
  {
    var i := 0;
    while i < |m|
      invariant 0 <= i <= |m|
      invariant Rename(m, key) == Rename(m[i..], key)
    {
      if m[i].0 == key {
        return m[i].1;
      }
      i := i + 1;
    }
    return key;
  }

  // ---------------------------------------------------------------------------
  // What a renamed map holds
  // ---------------------------------------------------------------------------

  /** Every entry of `out` is an entry of `source` under its new name, and every new name is there. */
  ghost predicate Renamed(source: Credentials, m: Mapping, out: Credentials) {
    (forall k | k in source :: Rename(m, k) in out) &&
    (forall r | r in out :: exists k :: k in source && Rename(m, k) == r && out[r] == source[k])
  }

  lemma {:induction false} RemapAlongRenames(source: Credentials, m: Mapping, order: seq<string>)
    requires forall i | 0 <= i < |order| :: order[i] in source
    ensures var out := RemapAlong(source, m, order);
            |out| <= |order| &&
            (forall k | k in order :: Rename(m, k) in out) &&
            (forall r | r in out :: exists k :: k in order && k in source && Rename(m, k) == r && out[r] == source[k])
  {
    if order != [] {
      var init, last := order[..|order| - 1], order[|order| - 1];
      assert order == init + [last];
      RemapAlongRenames(source, m, init);
      hide Rename;
      var before, out := RemapAlong(source, m, init), RemapAlong(source, m, order);
      forall r | r in out
        ensures exists k :: k in order && k in source && Rename(m, k) == r && out[r] == source[k]
      {
        if r == Rename(m, last) {
          assert last in order;
        } else {
          var k :| k in init && k in source && Rename(m, k) == r && before[r] == source[k];
          assert k in order;
        }
      }
    }
  }

  lemma RemapRenames(source: Credentials, m: Mapping, order: seq<string>)
    requires Enumerates(order, source)
    ensures Renamed(source, m, RemapAlong(source, m, order))
    ensures |RemapAlong(source, m, order)| <= |source|
  {
    RemapAlongRenames(source, m, order);
    EnumerationLength(order, source);
    hide Rename, RemapAlong;
  }

  lemma EnumerationLength(order: seq<string>, source: Credentials)
    requires Enumerates(order, source)
    ensures |order| == |source|
  {
    DistinctCount(order);
    assert (set k | k in order) == source.Keys;
  }

  lemma {:induction false} DistinctCount(order: seq<string>)
    requires forall i, j | 0 <= i < j < |order| :: order[i] != order[j]
    ensures |set k | k in order| == |order|
  {
    if order != [] {
      var init, last := order[..|order| - 1], order[|order| - 1];
      DistinctCount(init);
      assert (set k | k in order) == (set k | k in init) + {last};
    }
  }

  // ---------------------------------------------------------------------------
  // Renaming there and back
  // ---------------------------------------------------------------------------

  function Swap(m: Mapping): (w: Mapping)
    ensures |w| == |m| && forall i | 0 <= i < |m| :: w[i] == (m[i].1, m[i].0)
  {
    seq(|m|, i requires 0 <= i < |m| => (m[i].1, m[i].0))
  }

  ghost predicate IsFrom(m: Mapping, key: string) {
    exists i | 0 <= i < |m| :: m[i].0 == key
  }

  ghost predicate IsTo(m: Mapping, key: string) {
    exists i | 0 <= i < |m| :: m[i].1 == key
  }

  /** Old names are all different, new names are all different, and no new name is an old one. */
  ghost predicate Invertible(m: Mapping) {
    (forall i, j | 0 <= i < j < |m| :: m[i].0 != m[j].0 && m[i].1 != m[j].1) &&
    (forall i, j | 0 <= i < |m| && 0 <= j < |m| :: m[i].0 != m[j].1)
  }

  /** The first entry for an old name gives its new one. */
  lemma {:induction false} RenameEntry(m: Mapping, i: nat)
    requires i < |m| && forall j | 0 <= j < i :: m[j].0 != m[i].0
    ensures Rename(m, m[i].0) == m[i].1
  {
    if i > 0 {
      RenameEntry(m[1..], i - 1);
    }
  }

  lemma {:induction false} RenameOther(m: Mapping, key: string)
    requires !IsFrom(m, key)
    ensures Rename(m, key) == key
  {
    if m != [] {
      assert m[0].0 != key;
      assert forall i | 0 <= i < |m[1..]| :: m[1..][i] == m[i + 1];
      RenameOther(m[1..], key);
    }
  }

  lemma SwapInvertible(m: Mapping)
    requires Invertible(m)
    ensures Invertible(Swap(m))
    ensures forall key :: IsFrom(Swap(m), key) <==> IsTo(m, key)
    ensures forall key :: IsTo(Swap(m), key) <==> IsFrom(m, key)
  {}

  /** No key is ever renamed to an old name. */
  lemma NeverAnOldName(m: Mapping, key: string)
    requires Invertible(m)
    ensures !IsFrom(m, Rename(m, key))
  {
    if IsFrom(m, key) {
      var i :| 0 <= i < |m| && m[i].0 == key;
      RenameEntry(m, i);
    } else {
      RenameOther(m, key);
    }
  }

  /** Renaming back undoes renaming for every key but the new names. */
  lemma RenameBack(m: Mapping, key: string)
    requires Invertible(m) && !IsTo(m, key)
    ensures Rename(Swap(m), Rename(m, key)) == key
  {
    SwapInvertible(m);
    if IsFrom(m, key) {
      var i :| 0 <= i < |m| && m[i].0 == key;
      RenameEntry(m, i);
      assert Swap(m)[i].0 == m[i].1;
      RenameEntry(Swap(m), i);
    } else {
      RenameOther(m, key);
      RenameOther(Swap(m), key);
    }
  }

  lemma NoOldNameLeft(source: Credentials, m: Mapping, mid: Credentials)
    requires Invertible(m) && Renamed(source, m, mid)
    ensures forall k | k in mid :: !IsFrom(m, k)
  {
    hide Rename, Invertible, IsFrom;
    forall k | k in mid ensures !IsFrom(m, k) {
      var j :| j in source && Rename(m, j) == k && mid[k] == source[j];
      NeverAnOldName(m, j);
    }
  }

  lemma BackToSource(source: Credentials, m: Mapping, mid: Credentials, w: Mapping, back: Credentials)
    requires Renamed(source, m, mid) && Renamed(mid, w, back)
    requires forall k | k in source :: Rename(w, Rename(m, k)) == k
    ensures back == source
  {}

  ghost predicate HoldsNoNewName(source: Credentials, m: Mapping) {
    forall k | k in source :: !IsTo(m, k)
  }

  lemma BackIffNoNewName(source: Credentials, m: Mapping, mid: Credentials, back: Credentials)
    requires Invertible(m) && Renamed(source, m, mid) && Renamed(mid, Swap(m), back)
    ensures back == source <==> HoldsNoNewName(source, m)
  {
    SwapInvertible(m);
    if HoldsNoNewName(source, m) {
      forall k | k in source ensures Rename(Swap(m), Rename(m, k)) == k {
        RenameBack(m, k);
      }
      hide Renamed, Rename, Swap, Invertible;
      BackToSource(source, m, mid, Swap(m), back);
    } else {
      NoOldNameLeft(mid, Swap(m), back);
      hide Renamed, Rename, Swap, Invertible, IsTo, IsFrom;
      var k :| k in source && IsTo(m, k);
      assert IsFrom(Swap(m), k);
      assert k !in back;
    }
  }

  /** Renaming and renaming back gives the map back, in whatever orders the entries come, exactly
      when the map holds none of the new names to begin with. */
  lemma RoundTripIff(source: Credentials, m: Mapping, order: seq<string>, mid: Credentials, order': seq<string>)
    requires Invertible(m)
    requires Enumerates(order, source) && mid == RemapAlong(source, m, order) && Enumerates(order', mid)
    ensures RemapAlong(mid, Swap(m), order') == source <==> HoldsNoNewName(source, m)
  {
    RemapRenames(source, m, order);
    RemapRenames(mid, Swap(m), order');
    hide RemapAlong, Rename, Swap, Enumerates, Invertible, HoldsNoNewName, Renamed;
    BackIffNoNewName(source, m, mid, RemapAlong(mid, Swap(m), order'));
  }

  lemma RenamingInjective(source: Credentials, m: Mapping, j: string, k: string)
    requires Invertible(m) && HoldsNoNewName(source, m) && j in source && k in source && j != k
    ensures Rename(m, j) != Rename(m, k)
  {
    RenameBack(m, j);
    RenameBack(m, k);
  }

  lemma RenamingKeepsCount(source: Credentials, m: Mapping, order: seq<string>, mid: Credentials)
    requires Invertible(m) && HoldsNoNewName(source, m)
    requires Enumerates(order, source) && mid == RemapAlong(source, m, order)
    ensures |mid| == |source|
  {
    var order' := SomeOrder(mid.Keys);
    assert Enumerates(order', mid);
    hide Enumerates, Invertible, Rename, RemapAlong, HoldsNoNewName;
    RemapRenames(source, m, order);
    RemapRenames(mid, Swap(m), order');
    RoundTripIff(source, m, order, mid, order');
  }

  /** On such a map the renaming is one to one and keeps the number of entries; and it never leaves
      an old name. */
  lemma RenamingKeepsEntries(source: Credentials, m: Mapping, order: seq<string>)
    requires Invertible(m) && Enumerates(order, source)
    ensures forall k | k in RemapAlong(source, m, order) :: !IsFrom(m, k)
    ensures HoldsNoNewName(source, m) ==>
              |RemapAlong(source, m, order)| == |source| &&
              forall j, k | j in source && k in source && j != k :: Rename(m, j) != Rename(m, k)
  {
    var mid := RemapAlong(source, m, order);
    RemapRenames(source, m, order);
    hide Invertible, IsTo, IsFrom, Renamed, HoldsNoNewName, Rename, RemapAlong;
    NoOldNameLeft(source, m, mid);
    if HoldsNoNewName(source, m) {
      RenamingKeepsCount(source, m, order, mid);
      forall j, k | j in source && k in source && j != k ensures Rename(m, j) != Rename(m, k) {
        RenamingInjective(source, m, j, k);
      }
    }
  }

  // ---------------------------------------------------------------------------
  // When the iteration order matters
  // ---------------------------------------------------------------------------

  ghost predicate Clash(source: Credentials, m: Mapping, j: string, k: string) {
    j in source && k in source && Rename(m, j) == Rename(m, k) && source[j] != source[k]
  }

  lemma {:induction false} SomeOrder(keys: set<string>) returns (order: seq<string>)
    ensures forall i | 0 <= i < |order| :: order[i] in keys
    ensures forall k | k in keys :: k in order
    ensures forall i, j | 0 <= i < j < |order| :: order[i] != order[j]
    decreases keys
  {
    order := [];
    if keys != {} {
      var k :| k in keys;
      var rest := SomeOrder(keys - {k});
      order := rest + [k];
    }
  }

  lemma LastEntryWins(source: Credentials, m: Mapping, rest: seq<string>, last: string)
    requires last in source && forall i | 0 <= i < |rest| :: rest[i] in source
    ensures forall i | 0 <= i < |rest + [last]| :: (rest + [last])[i] in source
    ensures Rename(m, last) in RemapAlong(source, m, rest + [last])
    ensures RemapAlong(source, m, rest + [last])[Rename(m, last)] == source[last]
  {}

  lemma TwoLast(source: Credentials, rest: seq<string>, j: string, k: string)
    requires j in source && k in source && j != k && Enumerates(rest, source - {j, k})
    ensures Enumerates(rest + [j] + [k], source)
  {}

  /** Two entries that clash can come in either order, and the later one wins. */
  lemma ClashOrders(source: Credentials, m: Mapping, j: string, k: string)
    returns (order: seq<string>, order': seq<string>)
    requires Clash(source, m, j, k)
    ensures Enumerates(order, source) && Enumerates(order', source)
    ensures RemapAlong(source, m, order) != RemapAlong(source, m, order')
  {
    var rest := SomeOrder((source - {j, k}).Keys);
    assert Enumerates(rest, source - {j, k}) && source - {j, k} == source - {k, j};
    TwoLast(source, rest, j, k);
    TwoLast(source, rest, k, j);
    hide Rename, RemapAlong;
    order, order' := rest + [j] + [k], rest + [k] + [j];
    LastEntryWins(source, m, rest + [j], k);
    LastEntryWins(source, m, rest + [k], j);
  }

  /** The result does not depend on the iteration order exactly when no two entries with different
      values are renamed to one key. */
  lemma OrderIrrelevantIff(source: Credentials, m: Mapping)
    ensures (forall o, o' | Enumerates(o, source) && Enumerates(o', source) ::
               RemapAlong(source, m, o) == RemapAlong(source, m, o')) <==>
            (forall j, k :: !Clash(source, m, j, k))
  {
    hide Rename, RemapAlong;
    if j, k :| Clash(source, m, j, k) {
      var o, o' := ClashOrders(source, m, j, k);
    } else {
      forall o, o' | Enumerates(o, source) && Enumerates(o', source)
        ensures RemapAlong(source, m, o) == RemapAlong(source, m, o')
      {
        RemapRenames(source, m, o);
        RemapRenames(source, m, o');
        NoClashOneResult(source, m, RemapAlong(source, m, o), RemapAlong(source, m, o'));
      }
    }
  }

  lemma NoClashOneResult(source: Credentials, m: Mapping, x: Credentials, y: Credentials)
    requires Renamed(source, m, x) && Renamed(source, m, y) && forall j, k :: !Clash(source, m, j, k)
    ensures x == y
  {
    hide Rename;
    forall r | r in x ensures r in y && x[r] == y[r] {
      var j :| j in source && Rename(m, j) == r && x[r] == source[j];
      var k :| k in source && Rename(m, k) == r && y[r] == source[k];
      assert !Clash(source, m, j, k);
    }
    forall r | r in y ensures r in x {
      var j :| j in source && Rename(m, j) == r && y[r] == source[j];
    }
  }

  /** Old and new name of the `i`-th entry are both in use, for different values. */
  ghost predicate NamesDiffer(source: Credentials, m: Mapping, i: nat)
    requires i < |m|
  {
    m[i].0 in source && m[i].1 in source && source[m[i].0] != source[m[i].1]
  }

  lemma OnlyOldAndNewNameClash(source: Credentials, m: Mapping, j: string, k: string) returns (i: nat)
    requires Invertible(m) && Clash(source, m, j, k) && IsTo(m, k)
    ensures i < |m| && m[i] == (j, k)
  {
    SwapInvertible(m);
    RenameOther(m, k);
    if IsTo(m, j) {
      RenameOther(m, j);
    }
    RenameBack(m, j);
    i :| 0 <= i < |m| && m[i].1 == k;
    assert Swap(m)[i] == (k, m[i].0);
    RenameEntry(Swap(m), i);
  }

  /** A map without new names has no clash. */
  lemma NoNewNameNoClash(source: Credentials, m: Mapping, j: string, k: string)
    requires Invertible(m) && HoldsNoNewName(source, m)
    ensures !Clash(source, m, j, k)
  {
    if j in source && k in source {
      RenameBack(m, j);
      RenameBack(m, k);
    }
  }

  /** On a map that holds none of the new names, every order of iteration gives the same result. */
  lemma RenamingDeterministic(source: Credentials, m: Mapping, o: seq<string>, o': seq<string>)
    requires Invertible(m) && HoldsNoNewName(source, m) && Enumerates(o, source) && Enumerates(o', source)
    ensures RemapAlong(source, m, o) == RemapAlong(source, m, o')
  {
    OrderIrrelevantIff(source, m);
    hide RemapAlong, Clash, Invertible, HoldsNoNewName, Enumerates;
    forall j, k ensures !Clash(source, m, j, k) {
      NoNewNameNoClash(source, m, j, k);
    }
  }

  /** For an invertible mapping the order is irrelevant exactly when no entry's old and new name are
      both in use for different values. */
  lemma RenamingDeterministicIff(source: Credentials, m: Mapping)
    requires Invertible(m)
    ensures (forall o, o' | Enumerates(o, source) && Enumerates(o', source) ::
               RemapAlong(source, m, o) == RemapAlong(source, m, o')) <==>
            (forall i: nat | i < |m| :: !NamesDiffer(source, m, i))
  {
    OrderIrrelevantIff(source, m);
    hide RemapAlong, Enumerates, Rename;
    if i: nat :| i < |m| && NamesDiffer(source, m, i) {
      RenameEntry(m, i);
      RenameOther(m, m[i].1);
      assert Clash(source, m, m[i].0, m[i].1);
    } else {
      forall j, k ensures !Clash(source, m, j, k) {
        if Clash(source, m, j, k) {
          ClashMeansNamesDiffer(source, m, j, k);
        }
      }
    }
  }

  lemma ClashMeansNamesDiffer(source: Credentials, m: Mapping, j: string, k: string)
    requires Invertible(m) && Clash(source, m, j, k)
    ensures exists i: nat | i < |m| :: NamesDiffer(source, m, i)
  {
    if IsTo(m, k) {
      var i := OnlyOldAndNewNameClash(source, m, j, k);
      assert NamesDiffer(source, m, i);
    } else if IsTo(m, j) {
      var i := OnlyOldAndNewNameClash(source, m, k, j);
      assert NamesDiffer(source, m, i);
    } else {
      RenameBack(m, j);
      RenameBack(m, k);
    }
  }

  // ---------------------------------------------------------------------------
  // The app's mappings
  // ---------------------------------------------------------------------------

  lemma AppMappings()
    ensures Invertible(SCHEMA_TO_IOS) && Swap(SCHEMA_TO_IOS) == IOS_TO_SCHEMA
    ensures forall k :: IsTo(SCHEMA_TO_IOS, k) <==> k in {"issuerID", "privateKeyID", "privateKey"}
  {
    assert "issuerId"[7] != "issuerID"[7];
    forall k ensures IsTo(SCHEMA_TO_IOS, k) <==> k in {"issuerID", "privateKeyID", "privateKey"} {
      assert SCHEMA_TO_IOS[0].1 == "issuerID" && SCHEMA_TO_IOS[1].1 == "privateKeyID";
      assert SCHEMA_TO_IOS[2].1 == "privateKey";
    }
  }

  lemma AppMappingsBack()
    ensures Invertible(IOS_TO_SCHEMA) && Swap(IOS_TO_SCHEMA) == SCHEMA_TO_IOS
    ensures forall k :: IsTo(IOS_TO_SCHEMA, k) <==> k in {"issuerId", "keyId", "privateKeyP8"}
  {
    AppMappings();
    SwapInvertible(SCHEMA_TO_IOS);
    hide Invertible;
    assert Swap(IOS_TO_SCHEMA) == SCHEMA_TO_IOS;
    forall k ensures IsTo(IOS_TO_SCHEMA, k) <==> k in {"issuerId", "keyId", "privateKeyP8"} {
      assert IOS_TO_SCHEMA[0].1 == "issuerId" && IOS_TO_SCHEMA[1].1 == "keyId";
      assert IOS_TO_SCHEMA[2].1 == "privateKeyP8";
    }
  }

  function Get(c: Credentials, key: string): Option<string> {
    if key in c then Some(c[key]) else None
  }

  /** On a map without new names, the value under each new name is the one under its old name. */
  lemma RenamedValue(source: Credentials, m: Mapping, out: Credentials, i: nat)
    requires Invertible(m) && HoldsNoNewName(source, m) && Renamed(source, m, out) && i < |m|
    ensures Get(out, m[i].1) == Get(source, m[i].0)
  {
    var from, to := m[i].0, m[i].1;
    RenameEntry(m, i);
    if to in out {
      var k :| k in source && Rename(m, k) == to && out[to] == source[k];
      RenameBack(m, k);
      RenameBack(m, from);
    }
  }

  /** A key that is neither an old nor a new name keeps its value, or stays absent. */
  lemma OtherValue(source: Credentials, m: Mapping, out: Credentials, key: string)
    requires Invertible(m) && HoldsNoNewName(source, m) && Renamed(source, m, out)
    requires !IsFrom(m, key) && !IsTo(m, key)
    ensures Get(out, key) == Get(source, key)
  {
    RenameOther(m, key);
    RenameBack(m, key);
    if key in out {
      var k :| k in source && Rename(m, k) == key && out[key] == source[k];
      RenameBack(m, k);
    }
  }

  ghost predicate IosKey(key: string) {
    key == "issuerID" || key == "privateKeyID" || key == "privateKey"
  }

  ghost predicate SchemaKey(key: string) {
    key == "issuerId" || key == "keyId" || key == "privateKeyP8"
  }

  /** `schema` is `ios` with each Apple credential under its schema key, and nothing else. */
  ghost predicate Corresponds(ios: Credentials, schema: Credentials) {
    Get(schema, "issuerId") == Get(ios, "issuerID") && Get(schema, "keyId") == Get(ios, "privateKeyID") &&
    Get(schema, "privateKeyP8") == Get(ios, "privateKey") &&
    (forall k | k in schema :: !IosKey(k)) && (forall k | k in ios :: !SchemaKey(k)) &&
    forall k | !IosKey(k) && !SchemaKey(k) :: Get(schema, k) == Get(ios, k)
  }

  lemma Names()
    ensures |IOS_TO_SCHEMA| == 3 && |SCHEMA_TO_IOS| == 3
    ensures IOS_TO_SCHEMA[0] == ("issuerID", "issuerId") && SCHEMA_TO_IOS[0] == ("issuerId", "issuerID")
    ensures IOS_TO_SCHEMA[1] == ("privateKeyID", "keyId") && SCHEMA_TO_IOS[1] == ("keyId", "privateKeyID")
    ensures IOS_TO_SCHEMA[2] == ("privateKey", "privateKeyP8") && SCHEMA_TO_IOS[2] == ("privateKeyP8", "privateKey")
    ensures forall k :: (IsFrom(IOS_TO_SCHEMA, k) <==> IosKey(k)) && (IsTo(IOS_TO_SCHEMA, k) <==> SchemaKey(k))
    ensures forall k :: (IsTo(SCHEMA_TO_IOS, k) <==> IosKey(k)) && (IsFrom(SCHEMA_TO_IOS, k) <==> SchemaKey(k))
  {
    AppMappings();
    AppMappingsBack();
    SwapInvertible(SCHEMA_TO_IOS);
    SwapInvertible(IOS_TO_SCHEMA);
    hide Invertible, IsFrom, IsTo, Swap;
  }

  /** All that `Corresponds` says, for any mapping. */
  ghost predicate MappedBy(m: Mapping, source: Credentials, out: Credentials) {
    (forall i: nat | i < |m| :: Get(out, m[i].1) == Get(source, m[i].0)) &&
    (forall k | k in out :: !IsFrom(m, k)) && HoldsNoNewName(source, m) &&
    forall k | !IsFrom(m, k) && !IsTo(m, k) :: Get(out, k) == Get(source, k)
  }

  lemma RenamedValues(source: Credentials, m: Mapping, order: seq<string>)
    requires Invertible(m) && HoldsNoNewName(source, m) && Enumerates(order, source)
    ensures MappedBy(m, source, RemapAlong(source, m, order))
  {
    var out := RemapAlong(source, m, order);
    RemapRenames(source, m, order);
    hide Invertible, HoldsNoNewName, Renamed, IsFrom, IsTo, Get, RemapAlong, Enumerates;
    forall i: nat | i < |m| ensures Get(out, m[i].1) == Get(source, m[i].0) {
      RenamedValue(source, m, out, i);
    }
    NoOldNameLeft(source, m, out);
    forall k | !IsFrom(m, k) && !IsTo(m, k) ensures Get(out, k) == Get(source, k) {
      OtherValue(source, m, out, k);
    }
  }

  lemma ImportMaps(ios: Credentials, schema: Credentials)
    ensures (forall k | k in ios :: !SchemaKey(k)) <==> HoldsNoNewName(ios, IOS_TO_SCHEMA)
    ensures MappedBy(IOS_TO_SCHEMA, ios, schema) ==> Corresponds(ios, schema)
  {
    Names();
    hide IsFrom, IsTo, Get, IosKey, SchemaKey;
  }

  lemma ExportMaps(schema: Credentials, ios: Credentials)
    ensures (forall k | k in schema :: !IosKey(k)) <==> HoldsNoNewName(schema, SCHEMA_TO_IOS)
    ensures MappedBy(SCHEMA_TO_IOS, schema, ios) ==> Corresponds(ios, schema)
  {
    Names();
    hide IsFrom, IsTo, Get, IosKey, SchemaKey;
  }

  /** Which iOS key becomes which schema key, in any order of iteration. */
  lemma ImportCorresponds(ios: Credentials, order: seq<string>)
    requires Enumerates(order, ios) && forall k | k in ios :: !SchemaKey(k)
    ensures Corresponds(ios, RemapAlong(ios, IOS_TO_SCHEMA, order))
  {
    var schema := RemapAlong(ios, IOS_TO_SCHEMA, order);
    hide *;
    AppMappingsBack();
    ImportMaps(ios, schema);
    RenamedValues(ios, IOS_TO_SCHEMA, order);
  }

  /** Which schema key becomes which iOS key, in any order of iteration. */
  lemma ExportCorresponds(schema: Credentials, order: seq<string>)
    requires Enumerates(order, schema) && forall k | k in schema :: !IosKey(k)
    ensures Corresponds(RemapAlong(schema, SCHEMA_TO_IOS, order), schema)
  {
    var ios := RemapAlong(schema, SCHEMA_TO_IOS, order);
    hide *;
    AppMappings();
    ExportMaps(schema, ios);
    RenamedValues(schema, SCHEMA_TO_IOS, order);
  }

  /** Credentials without the three iOS keys are exported the same whatever the order of iteration. */
  lemma ExportDeterministic(source: Credentials, o: seq<string>, o': seq<string>)
    requires forall k | k in source :: k !in {"issuerID", "privateKeyID", "privateKey"}
    requires Enumerates(o, source) && Enumerates(o', source)
    ensures RemapAlong(source, SCHEMA_TO_IOS, o) == RemapAlong(source, SCHEMA_TO_IOS, o')
  {
    AppMappings();
    hide RemapAlong, Enumerates, Invertible, IsTo;
    RenamingDeterministic(source, SCHEMA_TO_IOS, o, o');
  }

  /** A credential stored under an iOS key comes back under its schema key. */
  lemma IosKeyNotRestored(source: Credentials, order: seq<string>, mid: Credentials, order': seq<string>)
    requires source == map["issuerID" := "x"] && Enumerates(order, source)
    requires mid == RemapAlong(source, SCHEMA_TO_IOS, order) && Enumerates(order', mid)
    ensures RemapAlong(mid, IOS_TO_SCHEMA, order') == map["issuerId" := "x"] != source
  {
    IosKeyRenamed();
    assert Only(source, "issuerID", "x");
    hide RemapAlong, Enumerates, Rename;
    OneEntryBack(source, SCHEMA_TO_IOS, order, mid, IOS_TO_SCHEMA, order', "issuerID", "x");
    OtherKey("issuerID", "issuerId", "x");
  }

  ghost predicate Only(c: Credentials, key: string, value: string) {
    c == map[key := value]
  }

  lemma OneEntryBack(source: Credentials, m: Mapping, order: seq<string>, mid: Credentials, w: Mapping,
                     order': seq<string>, key: string, value: string)
    requires Only(source, key, value) && Enumerates(order, source) && Enumerates(order', mid)
    requires mid == RemapAlong(source, m, order) && Rename(m, key) == key
    ensures Only(RemapAlong(mid, w, order'), Rename(w, key), value)
  {
    hide RemapAlong, Renamed, Rename, Only;
    RemapRenames(source, m, order);
    RemapRenames(mid, w, order');
    OneEntry(source, m, mid, key, value);
    OneEntry(mid, w, RemapAlong(mid, w, order'), key, value);
  }

  lemma OneEntry(source: Credentials, m: Mapping, out: Credentials, key: string, value: string)
    requires Only(source, key, value) && Renamed(source, m, out)
    ensures Only(out, Rename(m, key), value)
  {
    hide Rename;
    assert key in source;
  }

  lemma OtherKey(key: string, other: string, value: string)
    requires key != other
    ensures map[key := value] != map[other := value]
  {
    assert key !in map[other := value];
  }

  lemma IosKeyRenamed()
    ensures Rename(SCHEMA_TO_IOS, "issuerID") == "issuerID" && Rename(IOS_TO_SCHEMA, "issuerID") == "issuerId"
    ensures "issuerID" != "issuerId"
  {
    AppMappings();
    assert "issuerId"[7] != "issuerID"[7];
    SwapInvertible(SCHEMA_TO_IOS);
    hide Rename;
    RenameEntry(IOS_TO_SCHEMA, 0);
    assert IsTo(SCHEMA_TO_IOS, "issuerID");
    RenameOther(SCHEMA_TO_IOS, "issuerID");
  }

  // ---------------------------------------------------------------------------
  // Export and import
  // ---------------------------------------------------------------------------

  datatype AccountExport = AccountExport(
    name: string,
    providerType: string,
    appsBundles: Option<seq<string>>,
    credentials: Credentials)

  /** The order in which a hash map hands out its entries. */
  type Iteration = Credentials -> seq<string>

  ghost predicate IsIteration(it: Iteration) {
    forall c :: Enumerates(it(c), c)
  }

  function HexDigit(d: nat): char
    requires d < 16
  {
    if d < 10 then '0' + d as char else 'a' + (d - 10) as char
  }

  function ErrorText(e: CryptoError): string {
    match e
    case InvalidFormat(what) => "invalid .scexport file format: " + what
    case UnsupportedVersion(v) => "unsupported .scexport version: 0x" + [HexDigit(v / 16), HexDigit(v % 16)]
    case DecryptAuthFailure => "decryption failed: invalid password or corrupted file"
    case InvalidJson(what) => "invalid export JSON: " + what
    case MissingField(field) => "missing required field: " + field
  }

  function MapCryptoError(e: CryptoError): StackError {
    if e.DecryptAuthFailure? then Auth(ErrorText(e)) else Decode(ErrorText(e))
  }

  /** Only an Apple account's credential keys are renamed. */
  function AtBoundary(providerType: string, c: Credentials, m: Mapping, it: Iteration): Credentials
    requires IsIteration(it)
  {
    if providerType == PROVIDER_APPLE then RemapAlong(c, m, it(c)) else c
  }

  function PayloadOf(account: AccountExport, id: string, createdAt: string, it: Iteration): ScexportPayload
    requires IsIteration(it)
  {
    ScexportPayload(
      Some(id), account.name, account.providerType, Some(createdAt), None, None, None,
      account.appsBundles, AtBoundary(account.providerType, account.credentials, SCHEMA_TO_IOS, it))
  }

  function EncryptScexport(p: Primitives, account: AccountExport, password: string,
                           id: string, createdAt: string, salt: seq<byte>, nonce: seq<byte>, it: Iteration)
    : Result<seq<byte>, StackError>
    requires IsIteration(it)
  {
    match Encrypted(p, PayloadOf(account, id, createdAt, it), password, salt, nonce)
    case Err(e) => Err(MapCryptoError(e))
    case Ok(bytes) => Ok(bytes)
  }

  function DecryptScexport(p: Primitives, bytes: seq<byte>, password: string, it: Iteration)
    : Result<AccountExport, StackError>
    requires IsIteration(it)
  {
    match Decrypted(p, bytes, password)
    case Err(e) => Err(MapCryptoError(e))
    case Ok(payload) =>
      Ok(AccountExport(payload.name, payload.providerType, payload.appsBundles,
                       AtBoundary(payload.providerType, payload.credentials, IOS_TO_SCHEMA, it)))
  }

  /** Not an Apple account with an iOS-named credential. */
  ghost predicate Portable(account: AccountExport) {
    account.providerType == PROVIDER_APPLE ==>
      forall k | k in account.credentials :: k !in {"issuerID", "privateKeyID", "privateKey"}
  }

  /** A file written by an export imports with the same password, and gives the account back,
      whatever the orders of iteration, exactly when it is not an Apple account with an iOS-named
      credential. Name, provider type and app scope always come back. */
  lemma ImportInvertsExport(p: Primitives, account: AccountExport, password: string, id: string, createdAt: string,
                            salt: seq<byte>, nonce: seq<byte>, it: Iteration, it': Iteration)
    requires Lawful(p) && |salt| == SALT_LEN && |nonce| == NONCE_LEN && IsIteration(it) && IsIteration(it')
    requires EncryptScexport(p, account, password, id, createdAt, salt, nonce, it).Ok?
    ensures var file := EncryptScexport(p, account, password, id, createdAt, salt, nonce, it).value;
            var back := DecryptScexport(p, file, password, it');
            back.Ok? && back.value.(credentials := account.credentials) == account &&
            (back == Ok(account) <==> Portable(account))
  {
    var payload := PayloadOf(account, id, createdAt, it);
    hide Encrypted, Decrypted, Lawful, IsIteration, RemapAlong;
    DecryptInvertsEncrypt(p, payload, password, salt, nonce);
    BoundaryRoundTrip(account, it, it');
  }

  /** What an export at second `now` writes: name, provider type and app scope as they are, a
      timestamp that before the year 10000 reads back as that second, none of the optional rules, and
      for an Apple account no schema-named credential. */
  lemma ExportedFile(p: Primitives, account: AccountExport, password: string, id: string, now: nat,
                     salt: seq<byte>, nonce: seq<byte>, it: Iteration)
    requires Lawful(p) && |salt| == SALT_LEN && |nonce| == NONCE_LEN && IsIteration(it)
    ensures var file := EncryptScexport(p, account, password, id, Timestamp.Iso8601(now), salt, nonce, it);
            file.Ok? ==>
            var read := Decrypted(p, file.value, password);
            read.Ok? && read.value.id == Some(id) && read.value.name == account.name &&
            read.value.providerType == account.providerType && read.value.appsBundles == account.appsBundles &&
            read.value.role == None && read.value.expirationDate == None && read.value.rules == None &&
            read.value.createdAt == Some(Timestamp.Iso8601(now)) &&
            (now < Timestamp.LIMIT ==> Timestamp.Parse(read.value.createdAt.value) == Some(now)) &&
            (account.providerType == PROVIDER_APPLE ==>
               forall k | k in read.value.credentials :: !IsFrom(SCHEMA_TO_IOS, k))
  {
    if now < Timestamp.LIMIT {
      Timestamp.ParseInvertsFormat(now);
    }
    hide Timestamp.Iso8601, Timestamp.Parse, Encrypted, Decrypted, Lawful, RemapAlong, IsFrom, Invertible;
    var createdAt := Timestamp.Iso8601(now);
    if EncryptScexport(p, account, password, id, createdAt, salt, nonce, it).Ok? {
      DecryptInvertsEncrypt(p, PayloadOf(account, id, createdAt, it), password, salt, nonce);
    }
    AppMappings();
    RenamingKeepsEntries(account.credentials, SCHEMA_TO_IOS, it(account.credentials));
  }

  lemma BoundaryRoundTrip(account: AccountExport, it: Iteration, it': Iteration)
    requires IsIteration(it) && IsIteration(it')
    ensures var exported := AtBoundary(account.providerType, account.credentials, SCHEMA_TO_IOS, it);
            AtBoundary(account.providerType, exported, IOS_TO_SCHEMA, it') == account.credentials <==>
            Portable(account)
  {
    AppMappings();
    hide Invertible, Swap, IsTo, RemapAlong;
    if account.providerType == PROVIDER_APPLE {
      var c := account.credentials;
      var mid := RemapAlong(c, SCHEMA_TO_IOS, it(c));
      RoundTripIff(c, SCHEMA_TO_IOS, it(c), mid, it'(mid));
    }
  }

  /** What an import builds from a file's payload: name, provider type and app scope as they are; for
      provider type "apple" each iOS-named credential under its schema key; for any other provider the
      credentials as they are. */
  lemma ImportedAccount(p: Primitives, bytes: seq<byte>, password: string, it: Iteration)
    requires IsIteration(it) && Decrypted(p, bytes, password).Ok?
    ensures var payload := Decrypted(p, bytes, password).value;
            var r := DecryptScexport(p, bytes, password, it);
            r.Ok? && r.value.name == payload.name && r.value.providerType == payload.providerType &&
            r.value.appsBundles == payload.appsBundles &&
            (payload.providerType != "apple" ==> r.value.credentials == payload.credentials) &&
            (payload.providerType == "apple" && (forall k | k in payload.credentials :: !SchemaKey(k)) ==>
               Corresponds(payload.credentials, r.value.credentials))
  {
    hide Decrypted, RemapAlong, Corresponds, SchemaKey;
    var payload := Decrypted(p, bytes, password).value;
    if payload.providerType == "apple" && forall k | k in payload.credentials :: !SchemaKey(k) {
      ImportCorresponds(payload.credentials, it(payload.credentials));
    }
  }

  /** What an export writes, as the file reads back: for provider type "apple" each schema-named
      credential under its iOS key; for any other provider the credentials as they are. */
  lemma ExportedCredentials(p: Primitives, account: AccountExport, password: string, id: string, createdAt: string,
                            salt: seq<byte>, nonce: seq<byte>, it: Iteration)
    requires Lawful(p) && |salt| == SALT_LEN && |nonce| == NONCE_LEN && IsIteration(it)
    requires EncryptScexport(p, account, password, id, createdAt, salt, nonce, it).Ok?
    ensures var file := EncryptScexport(p, account, password, id, createdAt, salt, nonce, it).value;
            var read := Decrypted(p, file, password);
            read.Ok? &&
            (account.providerType != "apple" ==> read.value.credentials == account.credentials) &&
            (account.providerType == "apple" && (forall k | k in account.credentials :: !IosKey(k)) ==>
               Corresponds(read.value.credentials, account.credentials))
  {
    hide Encrypted, Decrypted, Lawful, RemapAlong, Corresponds, IosKey;
    DecryptInvertsEncrypt(p, PayloadOf(account, id, createdAt, it), password, salt, nonce);
    if account.providerType == "apple" && forall k | k in account.credentials :: !IosKey(k) {
      ExportCorresponds(account.credentials, it(account.credentials));
    }
  }

  /** Not an Apple payload with a schema-named credential. */
  ghost predicate IosShaped(payload: ScexportPayload) {
    payload.providerType == PROVIDER_APPLE ==>
      forall k | k in payload.credentials :: k !in {"issuerId", "keyId", "privateKeyP8"}
  }

  lemma BoundaryThereAndBack(payload: ScexportPayload, it: Iteration, it': Iteration)
    requires IsIteration(it) && IsIteration(it')
    ensures var imported := AtBoundary(payload.providerType, payload.credentials, IOS_TO_SCHEMA, it);
            AtBoundary(payload.providerType, imported, SCHEMA_TO_IOS, it') == payload.credentials <==>
            IosShaped(payload)
  {
    AppMappingsBack();
    hide Invertible, Swap, IsTo, RemapAlong;
    if payload.providerType == PROVIDER_APPLE {
      var c := payload.credentials;
      var mid := RemapAlong(c, IOS_TO_SCHEMA, it(c));
      RoundTripIff(c, IOS_TO_SCHEMA, it(c), mid, it'(mid));
    }
  }

  /** A file that was imported and is exported again: name, provider type and app scope are kept, id
      and creation time are new, role, rules and expiration date are gone. The credentials are those of
      the first file exactly when it is not an Apple file with a schema-named credential, so apart from
      id and creation time the payload is the first one exactly when it also had none of the three. */
  lemma ReexportKeeps(p: Primitives, file: seq<byte>, password: string, password': string, id: string,
                      createdAt: string, salt: seq<byte>, nonce: seq<byte>, it: Iteration, it': Iteration)
    requires Lawful(p) && |salt| == SALT_LEN && |nonce| == NONCE_LEN && IsIteration(it) && IsIteration(it')
    requires DecryptScexport(p, file, password, it).Ok?
    requires EncryptScexport(p, DecryptScexport(p, file, password, it).value, password', id, createdAt,
                             salt, nonce, it').Ok?
    ensures var account := DecryptScexport(p, file, password, it).value;
            var file' := EncryptScexport(p, account, password', id, createdAt, salt, nonce, it').value;
            var first, second := Decrypted(p, file, password), Decrypted(p, file', password');
            first.Ok? && second.Ok? &&
            var a, b := first.value, second.value;
            b == a.(id := Some(id), createdAt := Some(createdAt), role := None, expirationDate := None,
                    rules := None, credentials := b.credentials) &&
            (b.credentials == a.credentials <==> IosShaped(a)) &&
            (b == a.(id := Some(id), createdAt := Some(createdAt)) <==>
             IosShaped(a) && a.role == None && a.expirationDate == None && a.rules == None)
  {
    hide Encrypted, Decrypted, Lawful, IsIteration, AtBoundary, IosShaped;
    var a := Decrypted(p, file, password).value;
    var account := DecryptScexport(p, file, password, it).value;
    DecryptInvertsEncrypt(p, PayloadOf(account, id, createdAt, it'), password', salt, nonce);
    BoundaryThereAndBack(a, it, it');
  }

  lemma BoundaryKeepsEmpty(providerType: string, c: Credentials, m: Mapping, it: Iteration)
    requires IsIteration(it)
    ensures AtBoundary(providerType, c, m, it) == map[] <==> c == map[]
  {
    RemapRenames(c, m, it(c));
    hide RemapAlong;
    if c != map[] {
      var k :| k in c;
      assert k in c && (providerType == PROVIDER_APPLE ==> Rename(m, k) in AtBoundary(providerType, c, m, it));
    }
  }

  /** An export yields a file exactly when name, provider type and credentials are there and
      serialising and sealing succeed; otherwise it fails with a decode error. */
  lemma ExportOutcome(p: Primitives, account: AccountExport, password: string, id: string, createdAt: string,
                      salt: seq<byte>, nonce: seq<byte>, it: Iteration)
    requires IsIteration(it)
    ensures var r := EncryptScexport(p, account, password, id, createdAt, salt, nonce, it);
            (r.Err? ==> r.error.Decode?) &&
            (r.Ok? <==>
             account.name != "" && account.providerType != "" && account.credentials != map[] &&
             Sealable(p, PayloadOf(account, id, createdAt, it), password, salt, nonce))
  {
    BoundaryKeepsEmpty(account.providerType, account.credentials, SCHEMA_TO_IOS, it);
    hide Encrypted, Sealable, RemapAlong, ErrorText, AtBoundary;
    EncryptOutcome(p, PayloadOf(account, id, createdAt, it), password, salt, nonce);
  }

  /** An import reports an authentication error exactly when the file is a well-formed frame that
      does not open under the password; every other failure is a decode error. */
  lemma ImportErrors(p: Primitives, bytes: seq<byte>, password: string, it: Iteration)
    requires IsIteration(it)
    ensures var r := DecryptScexport(p, bytes, password, it);
            (r.Err? ==> r.error.Auth? || r.error.Decode?) &&
            (r.Err? && r.error.Auth? <==> exists f :: FailsToOpen(p, bytes, password, f))
  {
    hide Decrypted, FailsToOpen, ErrorText, AtBoundary;
    AuthFailureIff(p, bytes, password);
  }

  /** The messages the host shows. */
  lemma ErrorTexts(what: string, version: byte)
    ensures ErrorText(InvalidFormat(what)) == "invalid .scexport file format: " + what
    ensures ErrorText(DecryptAuthFailure) == "decryption failed: invalid password or corrupted file"
    ensures ErrorText(InvalidJson(what)) == "invalid export JSON: " + what
    ensures ErrorText(MissingField(what)) == "missing required field: " + what
    ensures ErrorText(UnsupportedVersion(version)) ==
            "unsupported .scexport version: 0x" + [HEX_DIGITS[version / 16], HEX_DIGITS[version % 16]]
  {
    HexDigits(version / 16);
    HexDigits(version % 16);
  }

  const HEX_DIGITS := "0123456789abcdef"

  lemma HexDigits(d: nat)
    requires d < 16
    ensures HexDigit(d) == HEX_DIGITS[d]
  {}

  /** Which file is refused before its key is derived, and in which words. */
  lemma RefusedFrames(p: Primitives, b: seq<byte>, password: string, it: Iteration)
    requires IsIteration(it)
    ensures var r := DecryptScexport(p, b, password, it);
            (|b| < 5 ==> r == Err(Decode("invalid .scexport file format: " + "buffer shorter than header"))) &&
            (|b| >= 5 && !HasMagic(b) ==> r == Err(Decode("invalid .scexport file format: " + "missing SCEX magic"))) &&
            (HasMagic(b) && b[4] == 3 && |b| < 9 ==>
               r == Err(Decode("invalid .scexport file format: " + "truncated v3 iterations field"))) &&
            (HasMagic(b) && (if b[4] == 3 then 9 <= |b| < 53 else |b| < 49) ==>
               r == Err(Decode("invalid .scexport file format: " + "truncated salt/nonce/ciphertext"))) &&
            (HasMagic(b) && b[4] !in {1, 2, 3} && |b| >= 49 ==>
               r == Err(Decode("unsupported .scexport version: 0x" +
                               [HEX_DIGITS[b[4] / 16], HEX_DIGITS[b[4] % 16]])))
  {
    hide ParseFrame, OpenFrame, HasMagic, RemapAlong, IsIteration;
    OutcomeClasses(b);
    if |b| >= 5 {
      ErrorTexts("", b[4]);
    }
  }

  /** What an import makes of a frame that opens: text that is no JSON and each missing field in its
      words, every other payload as an account. */
  lemma RefusedPayloads(p: Primitives, bytes: seq<byte>, password: string, it: Iteration, f: Frame, json: string)
    requires IsIteration(it) && ParseFrame(bytes) == Ok(f)
    requires p.open(KeyOf(p, password, f), f.nonce, f.body) == Some(Utf8.Encode(json))
    ensures var r := DecryptScexport(p, bytes, password, it);
            match p.fromJson(json)
            case Err(e) => r == Err(Decode("invalid export JSON: " + e))
            case Ok(payload) =>
              if payload.name == "" then r == Err(Decode("missing required field: " + "name"))
              else if payload.providerType == "" then r == Err(Decode("missing required field: " + "providerType"))
              else if payload.credentials == map[] then r == Err(Decode("missing required field: " + "credentials"))
              else r.Ok?
  {
    hide ParseFrame, KeyOf, Utf8.Encode, Decrypted, DecryptScexport, MapCryptoError, ErrorText;
    OpenedOutcome(p, bytes, password, f, Utf8.Encode(json));
    ImportOutcome(p, bytes, password, it);
    DecodeTexts("name");
    DecodeTexts("providerType");
    DecodeTexts("credentials");
    if p.fromJson(json).Err? {
      DecodeTexts(p.fromJson(json).error);
    }
  }

  lemma ImportOutcome(p: Primitives, bytes: seq<byte>, password: string, it: Iteration)
    requires IsIteration(it)
    ensures var read, r := Decrypted(p, bytes, password), DecryptScexport(p, bytes, password, it);
            if read.Err? then r == Err(MapCryptoError(read.error)) else r.Ok?
  {
    hide Decrypted, MapCryptoError, AtBoundary, IsIteration;
  }

  lemma DecodeTexts(what: string)
    ensures MapCryptoError(MissingField(what)) == Decode("missing required field: " + what)
    ensures MapCryptoError(InvalidJson(what)) == Decode("invalid export JSON: " + what)
  {}

  /** A file that does not open is an authentication failure. */
  lemma WrongPasswordText(p: Primitives, bytes: seq<byte>, password: string, it: Iteration)
    requires IsIteration(it) && Decrypted(p, bytes, password) == Err(DecryptAuthFailure)
    ensures DecryptScexport(p, bytes, password, it) ==
            Err(Auth("decryption failed: invalid password or corrupted file"))
  {
    hide Decrypted;
  }

  /** An account that lacks a required field is not exported; the first such field is named. */
  lemma RefusedAccounts(p: Primitives, account: AccountExport, password: string, id: string, createdAt: string,
                        salt: seq<byte>, nonce: seq<byte>, it: Iteration)
    requires IsIteration(it)
    ensures var r := EncryptScexport(p, account, password, id, createdAt, salt, nonce, it);
            (account.name == "" ==> r == Err(Decode("missing required field: " + "name"))) &&
            (account.name != "" && account.providerType == "" ==>
               r == Err(Decode("missing required field: " + "providerType"))) &&
            (account.name != "" && account.providerType != "" && account.credentials == map[] ==>
               r == Err(Decode("missing required field: " + "credentials")))
  {
    BoundaryKeepsEmpty(account.providerType, account.credentials, SCHEMA_TO_IOS, it);
    EncryptedFile(p, PayloadOf(account, id, createdAt, it), password, salt, nonce);
    hide Encrypted, AtBoundary, Utf8.Encode;
  }
}
