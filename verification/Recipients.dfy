/**
  Selecting the keys a message is encrypted to (`encrypt_message_asym` in src/builtin/message.c). The
  encryption itself is opaque; what matters is the list of keys it is given.
 */
module Recipients {
  import opened Wrappers
  import opened Filters
  import opened KeyLists

  /** `filter_gpg_unusable_keys` */
  predicate Usable(k: Key) {
    !k.expired && !k.disabled && !k.invalid && !k.revoked && k.canEncrypt
  }

  /** `filter_gpg_secret_keys` */
  predicate Public(k: Key) {
    !k.secret
  }

  /** `filter_gpg_keys_by_fingerprint` */
  predicate Listed(k: Key, fingerprints: seq<string>) {
    k.fpr.Some? && k.fpr.value in fingerprints
  }

  predicate Named(u: Uid, name: string) {
    Some(name) in [u.uid, u.name, u.email, u.comment, u.address]
  }

  /** A recipient may be given by fingerprint or by any part of any user id. */
  predicate Matches(k: Key, name: string) {
    k.fpr == Some(name) || exists i | 0 <= i < |k.uids| :: Named(k.uids[i], name)
  }

  /** `filter_gpg_keylist_by_recipients` */
  predicate MatchesAny(k: Key, names: seq<string>) {
    exists i | 0 <= i < |names| :: Matches(k, names[i])
  }

  function Candidates(keyring: seq<Key>): seq<Key> {
    Filter(keyring, k => Usable(k) && Public(k))
  }

  function Requested(keys: seq<Key>, names: seq<string>): seq<Key> {
    Filter(keys, k => MatchesAny(k, names))
  }

  /** The keys to encrypt to, or none if the recipients do not seem to have one key each. */
  function Selected(keyring: seq<Key>, names: seq<string>, trust: Option<seq<string>>): Option<seq<Key>> {
    var keys := Candidates(keyring);
    var wanted := if names == [] then keys else Requested(keys, names);
    if names != [] && |wanted| != |names| then None
    else Some(if trust.None? then wanted else Filter(wanted, k => Listed(k, trust.value)))
  }

  // ---------- who may read a message, by the fields of the keys ----------

  /** Neither expired, disabled, invalid nor revoked, able to encrypt, and not a secret key. */
  predicate Allowed(k: Key) {
    k.canEncrypt && !(k.expired || k.disabled || k.invalid || k.revoked || k.secret)
  }

  /** The name is the fingerprint of the key, or any part of one of its user ids. */
  predicate AnswersTo(k: Key, name: string) {
    (k.fpr.Some? && k.fpr.value == name)
    || exists u | u in k.uids ::
         u.uid == Some(name) || u.name == Some(name) || u.email == Some(name) || u.comment == Some(name) ||
         u.address == Some(name)
  }

  predicate AnswersAny(k: Key, names: seq<string>) {
    exists i | 0 <= i < |names| :: AnswersTo(k, names[i])
  }

  /** Allowed, requested if anything is, and in the trust list if there is one. */
  predicate Entitled(k: Key, names: seq<string>, trust: Option<seq<string>>) {
    && Allowed(k)
    && (names == [] || AnswersAny(k, names))
    && (trust.Some? ==> k.fpr.Some? && exists i | 0 <= i < |trust.value| :: trust.value[i] == k.fpr.value)
  }

  lemma MatchesIs(k: Key, name: string)
    ensures Matches(k, name) == AnswersTo(k, name)
  {
    if i :| 0 <= i < |k.uids| && Named(k.uids[i], name) {
      assert k.uids[i] in k.uids;
    }
    if u :| u in k.uids && Named(u, name) {
      var i :| 0 <= i < |k.uids| && k.uids[i] == u;
      assert Named(k.uids[i], name);
    }
  }

  lemma MatchesAlways(k: Key)
    ensures forall name: string :: Matches(k, name) == AnswersTo(k, name)
  {
    hide Matches, AnswersTo;
    forall name: string
      ensures Matches(k, name) == AnswersTo(k, name)
    {
      MatchesIs(k, name);
    }
  }

  lemma MatchesAnyIs(k: Key, names: seq<string>)
    ensures MatchesAny(k, names) == AnswersAny(k, names)
  {
    hide Matches, AnswersTo;
    forall i | 0 <= i < |names|
      ensures Matches(k, names[i]) == AnswersTo(k, names[i])
    {
      MatchesIs(k, names[i]);
    }
  }

  lemma EntitledIs(k: Key, names: seq<string>, trust: Option<seq<string>>)
    ensures Allowed(k) == (Usable(k) && Public(k))
    ensures Entitled(k, names, trust) ==
            (Usable(k) && Public(k) && (names == [] || MatchesAny(k, names)) && (trust.None? || Listed(k, trust.value)))
  {
    MatchesAnyIs(k, names);
  }

  /** The keys that a message may be encrypted to at all. */
  function AllowedKeys(keyring: seq<Key>): seq<Key> {
    Filter(keyring, k => Allowed(k))
  }

  lemma CandidatesAre(keyring: seq<Key>)
    ensures Candidates(keyring) == AllowedKeys(keyring)
  {
    forall k: Key
      ensures (Usable(k) && Public(k)) == Allowed(k)
    {
      EntitledIs(k, [], None);
    }
    FilterSame(keyring, k => Usable(k) && Public(k), k => Allowed(k));
  }

  lemma RequestedAre(keys: seq<Key>, names: seq<string>)
    ensures Requested(keys, names) == Filter(keys, k => AnswersAny(k, names))
  {
    forall k: Key
      ensures MatchesAny(k, names) == AnswersAny(k, names)
    {
      MatchesAnyIs(k, names);
    }
    FilterSame(keys, k => MatchesAny(k, names), k => AnswersAny(k, names));
  }

  /** The keys selected are exactly the entitled ones, each as often and in the order of the keyring. */
  lemma SelectedEntitled(keyring: seq<Key>, names: seq<string>, trust: Option<seq<string>>)
    requires Selected(keyring, names, trust).Some?
    ensures Selected(keyring, names, trust).value == Filter(keyring, k => Entitled(k, names, trust))
  {
    hide Filter, Usable, Public, MatchesAny, Listed, Candidates, Requested, Entitled;
    var entitled := (k: Key) => Entitled(k, names, trust);
    var named := (k: Key) => Usable(k) && Public(k) && (names == [] || MatchesAny(k, names));
    forall k: Key
      ensures entitled(k) == (named(k) && (trust.None? || Listed(k, trust.value)))
    {
      EntitledIs(k, names, trust);
    }
    Narrow(keyring, names, named);
    if trust.Some? {
      FilterTwice(keyring, named, k => Listed(k, trust.value), entitled);
    } else {
      FilterSame(keyring, named, entitled);
    }
  }

  lemma Narrow(keyring: seq<Key>, names: seq<string>, named: Key -> bool)
    requires forall k :: named(k) == (Usable(k) && Public(k) && (names == [] || MatchesAny(k, names)))
    ensures Filter(keyring, named) == if names == [] then Candidates(keyring) else Requested(Candidates(keyring), names)
  {
    hide Filter, Usable, Public, MatchesAny;
    if names == [] {
      FilterSame(keyring, k => Usable(k) && Public(k), named);
    } else {
      FilterTwice(keyring, k => Usable(k) && Public(k), k => MatchesAny(k, names), named);
    }
  }

  // ---------- the test on the number of keys ----------

  /** No two keys of the list answer to the same name. */
  ghost predicate Distinguished(keys: seq<Key>) {
    forall i, j, name: string | 0 <= i < j < |keys| :: !(AnswersTo(keys[i], name) && AnswersTo(keys[j], name))
  }

  ghost predicate HasKey(keys: seq<Key>, name: string) {
    exists i | 0 <= i < |keys| :: AnswersTo(keys[i], name)
  }

  ghost predicate AllHaveKeys(keys: seq<Key>, names: seq<string>) {
    forall i | 0 <= i < |names| :: HasKey(keys, names[i])
  }

  /** No key answers to two of the names. */
  ghost predicate NoneTwice(keys: seq<Key>, names: seq<string>) {
    forall i, j, k | 0 <= i < j < |names| && 0 <= k < |keys| ::
      !(AnswersTo(keys[k], names[i]) && AnswersTo(keys[k], names[j]))
  }

  /**
    Where no two keys answer to the same name, the test on the number of keys passes exactly if every
    recipient has a key and no two recipients stand for the same key.
   */
  lemma {:induction false} CountTest(keys: seq<Key>, names: seq<string>)
    requires Distinguished(keys)
    ensures |Requested(keys, names)| <= |names|
    ensures |Requested(keys, names)| == |names| <==> AllHaveKeys(keys, names) && NoneTwice(keys, names)
  {
    RequestedAre(keys, names);
    if names == [] {
      FilterNone(keys, k => AnswersAny(k, names));
    } else {
      var name, rest := names[0], names[1..];
      var p, q := (k: Key) => AnswersAny(k, rest), (k: Key) => AnswersTo(k, name);
      var only := (k: Key) => q(k) && !p(k);
      var either := (k: Key) => AnswersAny(k, names);
      forall k
        ensures either(k) == (p(k) || q(k))
      {
        AnyOfCons(k, names);
      }
      CountTest(keys, rest);
      RequestedAre(keys, rest);
      CountGrows(keys, p, q, either, only);
      FirstIsNew(keys, names);
    }
  }

  lemma AnyOfCons(k: Key, names: seq<string>)
    requires names != []
    ensures AnswersAny(k, names) == (AnswersAny(k, names[1..]) || AnswersTo(k, names[0]))
  {
    hide AnswersTo;
    if AnswersAny(k, names[1..]) {
      var i :| 0 <= i < |names[1..]| && AnswersTo(k, names[1..][i]);
      assert AnswersTo(k, names[i + 1]);
    }
    if AnswersAny(k, names) && !AnswersTo(k, names[0]) {
      var i :| 0 <= i < |names| && AnswersTo(k, names[i]);
      assert names[1..][i - 1] == names[i];
    }
  }

  /** The conditions for all names are those for the later ones, and a key of its own for the first. */
  lemma FirstIsNew(keys: seq<Key>, names: seq<string>)
    requires Distinguished(keys) && names != []
    ensures var rest := names[1..];
            AllHaveKeys(keys, names) && NoneTwice(keys, names) <==>
            AllHaveKeys(keys, rest) && NoneTwice(keys, rest) &&
            OneHas(keys, (k: Key) => AnswersTo(k, names[0]) && !AnswersAny(k, rest))
  {
    hide AnswersTo;
    var rest := names[1..];
    var only := (k: Key) => AnswersTo(k, names[0]) && !AnswersAny(k, rest);
    assert forall i | 0 <= i < |rest| :: rest[i] == names[i + 1];
    if AllHaveKeys(keys, rest) && NoneTwice(keys, rest) && OneHas(keys, only) {
      var m :| 0 <= m < |keys| && only(keys[m]);
      forall i, j, k | 0 <= i < j < |names| && 0 <= k < |keys|
        ensures !(AnswersTo(keys[k], names[i]) && AnswersTo(keys[k], names[j]))
      {
        assert names[j] == rest[j - 1];
        if i == 0 && AnswersTo(keys[k], names[0]) {
          assert k == m;
        } else if i > 0 {
          assert names[i] == rest[i - 1];
        }
      }
      forall i | 0 <= i < |names|
        ensures HasKey(keys, names[i])
      {
        if i > 0 {
          assert names[i] == rest[i - 1];
        }
      }
    }
    if AllHaveKeys(keys, names) && NoneTwice(keys, names) {
      forall i | 0 <= i < |rest|
        ensures HasKey(keys, rest[i])
      {
        assert rest[i] == names[i + 1];
      }
      forall i, j, k | 0 <= i < j < |rest| && 0 <= k < |keys|
        ensures !(AnswersTo(keys[k], rest[i]) && AnswersTo(keys[k], rest[j]))
      {
        assert rest[i] == names[i + 1] && rest[j] == names[j + 1];
      }
      assert HasKey(keys, names[0]);
      var m :| 0 <= m < |keys| && AnswersTo(keys[m], names[0]);
      assert forall i | 0 <= i < |rest| ::
          rest[i] == names[i + 1] && !(AnswersTo(keys[m], names[0]) && AnswersTo(keys[m], names[i + 1]));
      assert only(keys[m]);
    }
  }

  // ---------- a name no key answers to ----------

  function Longer(m: nat, o: Option<string>): nat {
    if o.Some? && |o.value| > m then |o.value| else m
  }

  function UidLength(u: Uid): (m: nat)
    ensures forall name: string | Named(u, name) :: |name| <= m
  {
    Longer(Longer(Longer(Longer(Longer(0, u.uid), u.name), u.email), u.comment), u.address)
  }

  function UidsLength(us: seq<Uid>): (m: nat)
    ensures forall i, name: string | 0 <= i < |us| && Named(us[i], name) :: |name| <= m
  {
    hide Named, UidLength;
    if us == [] then 0
    else
      var a, b := UidLength(us[0]), UidsLength(us[1..]);
      assert forall i | 1 <= i < |us| :: us[i] == us[1..][i - 1];
      if a > b then a else b
  }

  function KeyLength(k: Key): (m: nat)
    ensures forall name: string | AnswersTo(k, name) :: |name| <= m
  {
    hide Named, UidsLength, AnswersTo;
    MatchesAlways(k);
    Longer(UidsLength(k.uids), k.fpr)
  }

  function KeysLength(keys: seq<Key>): (m: nat)
    ensures forall i, name: string | 0 <= i < |keys| && AnswersTo(keys[i], name) :: |name| <= m
  {
    hide AnswersTo, KeyLength;
    if keys == [] then 0
    else
      var a, b := KeyLength(keys[0]), KeysLength(keys[1..]);
      assert forall i | 1 <= i < |keys| :: keys[i] == keys[1..][i - 1];
      if a > b then a else b
  }

  /** A name that is longer than all names in the list. */
  function Stranger(keys: seq<Key>): (name: string)
    ensures forall i | 0 <= i < |keys| :: !AnswersTo(keys[i], name)
  {
    var name := seq(KeysLength(keys) + 1, _ => 'x');
    assert |name| > KeysLength(keys);
    name
  }

  /** Two keys with a common name make up for a recipient that has no key. */
  lemma SharedName(keys: seq<Key>, i: nat, j: nat, name: string) returns (names: seq<string>)
    requires i < j < |keys| && AnswersTo(keys[i], name) && AnswersTo(keys[j], name)
    ensures |Requested(keys, names)| == |names| && !AllHaveKeys(keys, names)
  {
    hide AnswersTo;
    var p := (k: Key) => AnswersTo(k, name);
    var n, stranger := |Filter(keys, p)|, Stranger(keys);
    TwoAtLeast(keys, p, i, j);
    names := [name] + seq(n - 1, _ => stranger);
    forall k | k in keys
      ensures AnswersAny(k, names) == p(k)
    {
      var m :| 0 <= m < |keys| && keys[m] == k;
      assert names[0] == name && forall x | 1 <= x < |names| :: names[x] == stranger;
    }
    RequestedAre(keys, names);
    FilterSame(keys, k => AnswersAny(k, names), p);
    assert names[1] == stranger && !HasKey(keys, stranger);
  }

  /**
    When the test on the number of keys can be trusted: it passes only if every recipient has a key, for all
    lists of recipients, exactly if no two keys answer to the same name.
   */
  lemma CountTestSoundIff(keys: seq<Key>)
    ensures Distinguished(keys) <==>
            forall names :: |Requested(keys, names)| == |names| ==> AllHaveKeys(keys, names)
  {
    hide AnswersTo, Requested;
    if Distinguished(keys) {
      forall names: seq<string>
        ensures |Requested(keys, names)| == |names| ==> AllHaveKeys(keys, names)
      {
        CountTest(keys, names);
      }
    } else {
      var i, j, name: string :| 0 <= i < j < |keys| && AnswersTo(keys[i], name) && AnswersTo(keys[j], name);
      var names := SharedName(keys, i, j, name);
    }
  }

  // ---------- when nothing is encrypted ----------

  /** The positions of the allowed keys that answer to some name. */
  function Answering(keyring: seq<Key>, names: seq<string>): set<nat> {
    Positions(keyring, k => Allowed(k) && AnswersAny(k, names))
  }

  /** Recipients are named, and the number of allowed keys that answer to them is not that of the names. */
  predicate Refused(keyring: seq<Key>, names: seq<string>) {
    names != [] && |Answering(keyring, names)| != |names|
  }

  /** Nothing is selected exactly if the number of keys is not that of the recipients. */
  lemma SelectedNoneIff(keyring: seq<Key>, names: seq<string>, trust: Option<seq<string>>)
    ensures Selected(keyring, names, trust).None? <==> Refused(keyring, names)
  {
    hide Filter, Candidates, Requested, Allowed, AnswersAny, Positions;
    var p, q, both := (k: Key) => Allowed(k), (k: Key) => AnswersAny(k, names),
                      (k: Key) => Allowed(k) && AnswersAny(k, names);
    CandidatesAre(keyring);
    RequestedAre(Candidates(keyring), names);
    FilterSame(keyring, k => Allowed(k), p);
    FilterSame(AllowedKeys(keyring), k => AnswersAny(k, names), q);
    FilterTwice(keyring, p, q, both);
    FilterSame(keyring, k => Allowed(k) && AnswersAny(k, names), both);
    FilterCount(keyring, k => Allowed(k) && AnswersAny(k, names));
  }

  lemma SelectionIs(keyring: seq<Key>, names: seq<string>, trust: Option<seq<string>>)
    ensures Selected(keyring, names, trust) ==
            if Refused(keyring, names) then None else Some(Filter(keyring, k => Entitled(k, names, trust)))
  {
    hide Filter, Selected, Refused, Entitled;
    SelectedNoneIff(keyring, names, trust);
    if !Refused(keyring, names) {
      SelectedEntitled(keyring, names, trust);
    }
  }

  /**
    Where no two allowed keys answer to the same name, something is selected exactly if no recipient is named,
    or each has an allowed key and no two the same one.
   */
  lemma SelectedSomeIff(keyring: seq<Key>, names: seq<string>, trust: Option<seq<string>>)
    requires Distinguished(AllowedKeys(keyring))
    ensures Selected(keyring, names, trust).Some? <==>
            names == [] || (AllHaveKeys(AllowedKeys(keyring), names) && NoneTwice(AllowedKeys(keyring), names))
  {
    hide Filter, Candidates, Requested, Distinguished, AllHaveKeys, NoneTwice;
    CandidatesAre(keyring);
    CountTest(AllowedKeys(keyring), names);
  }

  // ---------- on the linked list ----------

  /** `fetch_gpg_keys`: a new list with all keys of the keyring. */
  method FetchGpgKeys(keyring: seq<Key>, keys: KeyList) returns (fetched: nat)
    modifies keys
    ensures keys.Valid() && keys.Keys() == keyring && fetched == |keyring| && fresh(keys.Repr())
  {
    keys.head, keys.tail, keys.nodes := null, null, [];
    fetched := 0;
    while fetched < |keyring|
      invariant keys.Valid() && fetched <= |keyring| && keys.Keys() == keyring[..fetched]
      invariant fresh(keys.Repr())
    {
      var node := keys.Push(keyring[fetched]);
      assert keyring[..fetched] + [keyring[fetched]] == keyring[..fetched + 1];
      fetched := fetched + 1;
    }
    assert keyring[..fetched] == keyring;
  }

  /**
    `encrypt_message_asym`: the number of keys, or -1, and the keys that are handed to the encryption, if it
    takes place. `keyCount` follows the length of the list through all stages.
   */
  method EncryptMessageAsym(keyring: seq<Key>, recipients: seq<string>, trust: Option<seq<string>>)
    returns (count: int, encryptedTo: Option<seq<Key>>)
    ensures var s := Selected(keyring, recipients, trust);
            && (s.None? ==> count == -1 && encryptedTo == None)
            && (s.Some? ==> count == |s.value| && encryptedTo == if s.value == [] then None else s)
    ensures count == -1 <==> Refused(keyring, recipients)
    ensures Refused(keyring, recipients) ==> encryptedTo == None
    ensures !Refused(keyring, recipients) ==>
              var entitled := Filter(keyring, k => Entitled(k, recipients, trust));
              count == |entitled| && encryptedTo == if entitled == [] then None else Some(entitled)
  {
    SelectionIs(keyring, recipients, trust);
    hide Filter, Usable, Public, MatchesAny, Listed, KeysOf, KeyList.Valid, Refused, Entitled;
    var keys := new KeyList();
    var keyCount: int := FetchGpgKeys(keyring, keys);
    var filtered := keys.FilterByPredicate(k => Usable(k));
    keyCount := keyCount - filtered;
    assert fresh(keys.Repr());
    filtered := keys.FilterByPredicate(k => Public(k));
    keyCount := keyCount - filtered;
    FilterTwice(keyring, k => Usable(k), k => Public(k), k => Usable(k) && Public(k));
    assert fresh(keys.Repr()) && keys.Keys() == Candidates(keyring) && keyCount == |keys.Keys()|;
    if |recipients| > 0 {
      filtered := keys.FilterByPredicate(k => MatchesAny(k, recipients));
      keyCount := keyCount - filtered;
      if keyCount != |recipients| {
        ghost var freed := keys.Release();
        return -1, None;
      }
    }
    if trust.Some? {
      filtered := keys.FilterByPredicate(k => Listed(k, trust.value));
      keyCount := keyCount - filtered;
    }
    encryptedTo := None;
    if keyCount != 0 {
      var all := CollectKeys(keys);
      encryptedTo := Some(all);
    }
    ghost var freed := keys.Release();
    return keyCount, encryptedTo;
  }

  /** The array built at the start of `asymmetric_encrypt_plaintext_message`; it is never empty. */
  method CollectKeys(keys: KeyList) returns (all: seq<Key>)
    requires keys.Valid() && keys.Keys() != []
    ensures all == keys.Keys() && all != []
  {
    all := [];
    var node := keys.head;
    ghost var i := 0;
    assert keys.nodes[..0] == [];
    while node != null
      invariant i <= |keys.nodes| && node == keys.At(i) && all == KeysOf(keys.nodes[..i])
      decreases |keys.nodes| - i
    {
      KeysOfSnoc(keys.nodes[..i], keys.nodes[i]);
      assert keys.nodes[..i] + [keys.nodes[i]] == keys.nodes[..i + 1];
      all := all + [node.key];
      assert node.next == keys.At(i + 1);
      i, node := i + 1, node.next;
    }
    assert keys.nodes[..i] == keys.nodes;
  }
}
