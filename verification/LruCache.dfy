/** The caching DNS resolver: an array kept in order of use, with expiry, against what a cache should
    promise over any sequence of queries. */
module LruCache {
  import opened Bytes

  const TTL := 60

  datatype RCode = Success | NameError | OtherError

  datatype Message = Message(rcode: RCode, body: string)

  /** The entries a new cache is filled with have a zero expiry, which is past. */
  datatype Entry = Entry(key: string, msg: Option<Message>, expire: nat)

  datatype Question = Question(name: string, kind: string, class_: string)

  // Keys.

  /** `canonicalName`. */
  function CanonicalName(s: string): (r: string)
    ensures |r| == |s|
  {
    seq(|s|, i requires 0 <= i < |s| => LowerCode(s[i] as int) as char)
  }

  /** `makeCacheKey`. */
  function MakeCacheKey(q: Question): string {
    CanonicalName(q.name) + "|" + q.kind + "|" + q.class_
  }

  lemma LastBarIsUnique(a: string, b: string, c: string, d: string)
    requires a + "|" + b == c + "|" + d && '|' !in b && '|' !in d
    ensures a == c && b == d
  {
    var s, t := a + "|" + b, c + "|" + d;
    assert s[|a|] == '|' && t[|c|] == '|';
    assert forall i :: |a| < i < |s| ==> s[i] == b[i - |a| - 1];
    assert forall i :: |c| < i < |t| ==> t[i] == d[i - |c| - 1];
    assert |a| == |c|;
    assert s[..|a|] == a && s[|a| + 1..] == b && t[..|c|] == c && t[|c| + 1..] == d;
  }

  /** The same text, but that letters of US-ASCII may differ in their case. */
  predicate SameUpToCase(a: string, b: string) {
    |a| == |b| && forall i :: 0 <= i < |a| ==>
      || a[i] == b[i]
      || ('A' <= a[i] <= 'Z' && b[i] as int == a[i] as int + 32)
      || ('A' <= b[i] <= 'Z' && a[i] as int == b[i] as int + 32)
  }

  lemma CanonicalNamesAgree(a: string, b: string)
    ensures CanonicalName(a) == CanonicalName(b) <==> SameUpToCase(a, b)
  {
    if CanonicalName(a) == CanonicalName(b) {
      forall i | 0 <= i < |a|
        ensures CanonicalName(a)[i] == CanonicalName(b)[i]
      {
      }
      assert forall i :: 0 <= i < |a| ==> LowerCode(a[i] as int) == CanonicalName(a)[i] as int;
      assert forall i :: 0 <= i < |b| ==> LowerCode(b[i] as int) == CanonicalName(b)[i] as int;
    }
  }

  /** Two questions share a key exactly when they ask for the same type and class of the same name, up
      to the case of US-ASCII letters; names may contain anything, even the separator. */
  lemma KeysIdentifyQuestions(p: Question, q: Question)
    requires '|' !in p.kind && '|' !in p.class_ && '|' !in q.kind && '|' !in q.class_
    ensures MakeCacheKey(p) == MakeCacheKey(q)
       <==> SameUpToCase(p.name, q.name) && p.kind == q.kind && p.class_ == q.class_
  {
    CanonicalNamesAgree(p.name, q.name);
    if MakeCacheKey(p) == MakeCacheKey(q) {
      LastBarIsUnique(CanonicalName(p.name) + "|" + p.kind, p.class_, CanonicalName(q.name) + "|" + q.kind, q.class_);
      LastBarIsUnique(CanonicalName(p.name), p.kind, CanonicalName(q.name), q.kind);
    }
  }

  // What the operations do to the list of entries.

  /** The entries that have not expired. */
  function Live(entries: seq<Entry>, now: nat): seq<Entry> {
    if entries == [] then []
    else
      var last := entries[|entries| - 1];
      Live(entries[..|entries| - 1], now) + if last.expire > now then [last] else []
  }

  ghost predicate Purges(entries: seq<Entry>, live: seq<Entry>, now: nat) {
    live == Live(entries, now)
  }

  /** Entry i first, the others in their order. */
  function Front<T>(s: seq<T>, i: nat): (r: seq<T>)
    requires i < |s|
    ensures |r| == |s|
  {
    [s[i]] + s[..i] + s[i + 1..]
  }

  /** A new entry first, and the last one dropped if there is no room. */
  function Pushed(entries: seq<Entry>, e: Entry, capacity: nat): (r: seq<Entry>)
    requires |entries| <= capacity && capacity > 0
    ensures |r| == Min(|entries| + 1, capacity)
  {
    [e] + if |entries| < capacity then entries else entries[..capacity - 1]
  }

  // What the cache promises.

  /** The keys used since `key` was used last. */
  ghost function Since(uses: seq<string>, key: string): set<string> {
    set i | 0 <= i < |uses| && key !in uses[i..] :: uses[i]
  }

  ghost predicate Holds(entries: seq<Entry>, key: string) {
    exists i :: 0 <= i < |entries| && entries[i].key == key
  }

  predicate NotBefore(entries: seq<Entry>, key: string, i: nat) {
    i <= |entries| && forall k :: 0 <= k < i ==> entries[k].key != key
  }

  /** The first entry of the key, which is there, has moved to the front. */
  ghost predicate MovedUp(before: seq<Entry>, after: seq<Entry>, key: string) {
    exists i: nat :: i < |before| && before[i].key == key && NotBefore(before, key, i) && after == Front(before, i)
  }

  ghost predicate FirstIsLatest(entries: seq<Entry>, added: map<string, Entry>) {
    forall i: nat {:trigger NotBefore(entries, entries[i].key, i)} ::
      i < |entries| && NotBefore(entries, entries[i].key, i) ==>
        entries[i].key in added && added[entries[i].key] == entries[i]
  }

  ghost predicate LaterExpireEarlier(entries: seq<Entry>) {
    forall i, j :: 0 <= i < j < |entries| && entries[i].key == entries[j].key ==> entries[i].expire >= entries[j].expire
  }

  ghost predicate Real(entries: seq<Entry>) {
    forall i :: 0 <= i < |entries| ==> entries[i].msg.Some?
  }

  /** What holds even if concurrent queries add a key twice: the first entry of a key is the last
      cacheable answer for it, and the later ones expire no later. */
  ghost predicate Latest(entries: seq<Entry>, added: map<string, Entry>) {
    Real(entries) && FirstIsLatest(entries, added) && LaterExpireEarlier(entries)
  }

  ghost predicate NoDuplicates(entries: seq<Entry>) {
    forall i, j :: 0 <= i < j < |entries| ==> entries[i].key != entries[j].key
  }

  /** Most recently used first: whatever stands before the first entry of a key was used after it. */
  ghost predicate ByUse(entries: seq<Entry>, uses: seq<string>) {
    forall i: nat, j: nat {:trigger entries[i], NotBefore(entries, entries[j].key, j)} ::
      i < j < |entries| && NotBefore(entries, entries[j].key, j) ==> entries[i].key in Since(uses, entries[j].key)
  }

  /** An answer that is not there has expired, or at least `room` other keys were used since. */
  ghost predicate Forgotten(entries: seq<Entry>, room: nat, uses: seq<string>, added: map<string, Entry>, purged: nat) {
    forall key :: key in added ==>
      Holds(entries, key) || added[key].expire <= purged || |Since(uses, key)| >= room
  }

  ghost predicate Answers(added: map<string, Entry>) {
    forall key :: key in added ==> added[key].key == key && added[key].msg.Some?
  }

  ghost predicate Inv(entries: seq<Entry>, capacity: nat, room: nat, uses: seq<string>, added: map<string, Entry>, purged: nat) {
    && |entries| <= capacity && room <= capacity && Latest(entries, added) && ByUse(entries, uses)
    && Answers(added) && Forgotten(entries, room, uses, added, purged)
  }

  lemma SinceOneMore(uses: seq<string>, use: string, key: string)
    requires use != key
    ensures Since(uses + [use], key) == Since(uses, key) + {use}
  {
    var more := uses + [use];
    assert more[|uses|..] == [use] && more[|uses|] == use;
    forall i | 0 <= i < |uses|
      ensures more[i] == uses[i] && (key in more[i..] <==> key in uses[i..])
    {
      assert more[i..] == uses[i..] + [use];
    }
    forall k | k in Since(uses, key)
      ensures k in Since(more, key)
    {
      var i :| 0 <= i < |uses| && key !in uses[i..] && uses[i] == k;
      assert more[i] == k;
    }
  }

  lemma {:induction false} LiveHolds(entries: seq<Entry>, now: nat, i: nat)
    requires i < |entries| && entries[i].expire > now
    ensures Holds(Live(entries, now), entries[i].key)
  {
    var init := entries[..|entries| - 1];
    var live := Live(entries, now);
    if i < |init| {
      LiveHolds(init, now, i);
      var k :| 0 <= k < |Live(init, now)| && Live(init, now)[k].key == entries[i].key;
      assert live[k] == Live(init, now)[k];
    } else {
      assert live[|live| - 1] == entries[i];
    }
  }

  function Keys(entries: seq<Entry>): set<string> {
    set i | 0 <= i < |entries| :: entries[i].key
  }

  lemma {:induction false} KeysOfDistinct(entries: seq<Entry>)
    requires NoDuplicates(entries)
    ensures |Keys(entries)| == |entries|
  {
    if entries == [] {
    } else {
      var init, last := entries[..|entries| - 1], entries[|entries| - 1];
      KeysOfDistinct(init);
      assert Keys(entries) == Keys(init) + {last.key};
      assert last.key !in Keys(init);
    }
  }

  lemma SubsetIsSmaller(a: set<string>, b: set<string>)
    requires a <= b
    ensures |a| <= |b|
  {
    assert b == a + (b - a);
  }

  lemma FrontAt<T>(s: seq<T>, i: nat)
    requires i < |s|
    ensures Front(s, i)[0] == s[i]
    ensures forall j :: 0 < j <= i ==> Front(s, i)[j] == s[j - 1]
    ensures forall j :: i < j < |s| ==> Front(s, i)[j] == s[j]
  {}

  lemma SinceGrows(uses: seq<string>, use: string, key: string)
    requires use != key
    ensures use in Since(uses + [use], key) && Since(uses, key) <= Since(uses + [use], key)
    ensures |Since(uses, key)| <= |Since(uses + [use], key)|
  {
    SinceOneMore(uses, use, key);
    SubsetIsSmaller(Since(uses, key), Since(uses + [use], key));
  }

  lemma FirstOf(entries: seq<Entry>, key: string) returns (i: nat)
    requires Holds(entries, key)
    ensures i < |entries| && entries[i].key == key && NotBefore(entries, key, i)
  {
    i := 0;
    while entries[i].key != key
      invariant i < |entries| && NotBefore(entries, key, i)
      invariant exists j :: i <= j < |entries| && entries[j].key == key
      decreases |entries| - i
    {
      i := i + 1;
    }
  }

  // What a purge, a hit and a new answer keep.

  lemma {:induction false} LiveComesFrom(entries: seq<Entry>, now: nat, e: Entry)
    requires e in Live(entries, now)
    ensures e in entries && e.expire > now
  {
    var init, last := entries[..|entries| - 1], entries[|entries| - 1];
    assert entries == init + [last];
    if e !in Live(init, now) {
    } else {
      LiveComesFrom(init, now, e);
    }
  }

  lemma SnocLatest(init: seq<Entry>, last: Entry, added: map<string, Entry>)
    requires Latest(init + [last], added)
    ensures Latest(init, added) && last.msg.Some?
    ensures NotBefore(init, last.key, |init|) ==> last.key in added && added[last.key] == last
    ensures forall k :: 0 <= k < |init| && init[k].key == last.key ==> init[k].expire >= last.expire
  {
    var entries := init + [last];
    assert entries[|init|] == last && forall k :: 0 <= k < |init| ==> entries[k] == init[k];
    assert NotBefore(init, last.key, |init|) ==> NotBefore(entries, entries[|init|].key, |init|);
    assert LaterExpireEarlier(init);
    forall i: nat | i < |init| && NotBefore(init, init[i].key, i)
      ensures init[i].key in added && added[init[i].key] == init[i]
    {
      assert NotBefore(entries, entries[i].key, i);
    }
  }

  lemma LatestSnoc(init: seq<Entry>, last: Entry, added: map<string, Entry>)
    requires Latest(init, added) && last.msg.Some?
    requires NotBefore(init, last.key, |init|) ==> last.key in added && added[last.key] == last
    requires forall k :: 0 <= k < |init| && init[k].key == last.key ==> init[k].expire >= last.expire
    ensures Latest(init + [last], added)
  {
    var entries := init + [last];
    assert entries[|init|] == last && forall k :: 0 <= k < |init| ==> entries[k] == init[k];
    assert LaterExpireEarlier(entries);
    forall i: nat | i < |entries| && NotBefore(entries, entries[i].key, i)
      ensures entries[i].key in added && added[entries[i].key] == entries[i]
    {
      assert NotBefore(init, entries[i].key, i);
    }
  }

  lemma {:induction false} PurgeKeepsLatest(entries: seq<Entry>, added: map<string, Entry>, now: nat)
    requires Latest(entries, added)
    ensures Latest(Live(entries, now), added)
  {
    if entries == [] {
    } else {
      var init, last := entries[..|entries| - 1], entries[|entries| - 1];
      assert entries == init + [last];
      SnocLatest(init, last, added);
      PurgeKeepsLatest(init, added, now);
      if last.expire > now {
        LiveKeepsLast(init, last, now);
        LatestSnoc(Live(init, now), last, added);
      } else {
        assert Live(init, now) + [] == Live(init, now);
      }
    }
  }

  /** A key before a live entry that expires no earlier is among the live ones too. */
  lemma LiveKeepsLast(init: seq<Entry>, last: Entry, now: nat)
    requires last.expire > now
    requires forall k :: 0 <= k < |init| && init[k].key == last.key ==> init[k].expire >= last.expire
    ensures var live := Live(init, now);
            && (NotBefore(live, last.key, |live|) ==> NotBefore(init, last.key, |init|))
            && (forall k :: 0 <= k < |live| && live[k].key == last.key ==> live[k].expire >= last.expire)
  {
    var live := Live(init, now);
    forall k | 0 <= k < |live| && live[k].key == last.key
      ensures live[k].expire >= last.expire
    {
      LiveComesFrom(init, now, live[k]);
    }
    forall i | 0 <= i < |init| && init[i].key == last.key
      ensures !NotBefore(live, last.key, |live|)
    {
      LiveHolds(init, now, i);
    }
  }

  lemma {:induction false} LiveIsShorter(entries: seq<Entry>, now: nat)
    ensures |Live(entries, now)| <= |entries|
  {
    if entries == [] {
    } else {
      LiveIsShorter(entries[..|entries| - 1], now);
    }
  }

  lemma SnocByUse(init: seq<Entry>, last: Entry, uses: seq<string>)
    ensures ByUse(init + [last], uses)
       <==> ByUse(init, uses) && (NotBefore(init, last.key, |init|) ==> Keys(init) <= Since(uses, last.key))
  {
    var entries := init + [last];
    assert entries[|init|] == last && forall k :: 0 <= k < |init| ==> entries[k] == init[k];
    assert NotBefore(init, last.key, |init|) == NotBefore(entries, entries[|init|].key, |init|);
    assert forall j: nat :: j < |init| ==> NotBefore(init, init[j].key, j) == NotBefore(entries, entries[j].key, j);
  }

  lemma {:induction false} PurgeKeepsByUse(entries: seq<Entry>, added: map<string, Entry>, uses: seq<string>, now: nat)
    requires Latest(entries, added) && ByUse(entries, uses)
    ensures ByUse(Live(entries, now), uses)
  {
    if entries == [] {
    } else {
      var init, last := entries[..|entries| - 1], entries[|entries| - 1];
      assert entries == init + [last];
      SnocLatest(init, last, added);
      SnocByUse(init, last, uses);
      PurgeKeepsByUse(init, added, uses, now);
      if last.expire > now {
        LiveKeepsLast(init, last, now);
        LiveKeys(init, now);
        SnocByUse(Live(init, now), last, uses);
      } else {
        assert Live(init, now) + [] == Live(init, now);
      }
    }
  }

  lemma LiveKeys(entries: seq<Entry>, now: nat)
    ensures Keys(Live(entries, now)) <= Keys(entries)
  {
    var live := Live(entries, now);
    forall k | 0 <= k < |live|
      ensures live[k].key in Keys(entries)
    {
      LiveComesFrom(entries, now, live[k]);
    }
  }

  lemma PurgeKeepsInv(entries: seq<Entry>, capacity: nat, room: nat, uses: seq<string>, added: map<string, Entry>,
                      purged: nat, now: nat)
    requires Inv(entries, capacity, room, uses, added, purged) && purged <= now
    ensures Inv(Live(entries, now), capacity, room, uses, added, now)
  {
    var live := Live(entries, now);
    LiveIsShorter(entries, now);
    PurgeKeepsLatest(entries, added, now);
    PurgeKeepsByUse(entries, added, uses, now);
    forall key | key in added
      ensures Holds(live, key) || added[key].expire <= now || |Since(uses, key)| >= room
    {
      if Holds(entries, key) {
        var i := FirstOf(entries, key);
        assert NotBefore(entries, entries[i].key, i);
        if entries[i].expire > now {
          LiveHolds(entries, now, i);
        }
      }
    }
  }

  /** Where entry j came from when entry i, the first of its key, went to the front. */
  function Was(i: nat, j: nat): nat {
    if j == 0 then i else if j <= i then j - 1 else j
  }

  /** The first entries of their keys stay that. */
  lemma FrontFirst(entries: seq<Entry>, i: nat, j: nat)
    requires i < |entries| && NotBefore(entries, entries[i].key, i)
    requires j < |entries| && NotBefore(Front(entries, i), Front(entries, i)[j].key, j)
    ensures Front(entries, i)[j] == entries[Was(i, j)] && NotBefore(entries, entries[Was(i, j)].key, Was(i, j))
    ensures j > 0 ==> entries[Was(i, j)].key != entries[i].key
  {
    var front, was := Front(entries, i), Was(i, j);
    FrontAt(entries, i);
    assert j > 0 ==> front[0].key != front[j].key;
    forall k | 0 <= k < was
      ensures entries[k].key != entries[was].key
    {
      var at := if k < i then k + 1 else if k == i then 0 else k;
      assert j != 0 ==> entries[k] == front[at] && at < j;
    }
  }

  lemma HitKeepsLatest(entries: seq<Entry>, added: map<string, Entry>, i: nat)
    requires Latest(entries, added) && i < |entries| && NotBefore(entries, entries[i].key, i)
    ensures Latest(Front(entries, i), added)
  {
    var front := Front(entries, i);
    FrontAt(entries, i);
    assert Real(front) && LaterExpireEarlier(front);
    forall j: nat | j < |front| && NotBefore(front, front[j].key, j)
      ensures front[j].key in added && added[front[j].key] == front[j]
    {
      FrontFirst(entries, i, j);
    }
  }

  /** Moving a used entry to the front keeps the order by use. */
  lemma HitKeepsByUse(entries: seq<Entry>, uses: seq<string>, i: nat)
    requires ByUse(entries, uses) && i < |entries| && NotBefore(entries, entries[i].key, i)
    ensures ByUse(Front(entries, i), uses + [entries[i].key])
  {
    var front, use := Front(entries, i), entries[i].key;
    FrontAt(entries, i);
    forall k: nat, j: nat | k < j < |front| && NotBefore(front, front[j].key, j)
      ensures front[k].key in Since(uses + [use], front[j].key)
    {
      FrontFirst(entries, i, j);
      SinceGrows(uses, use, front[j].key);
      assert front[k] == entries[Was(i, k)];
    }
  }

  lemma FrontHolds(entries: seq<Entry>, i: nat, key: string)
    requires i < |entries| && Holds(entries, key)
    ensures Holds(Front(entries, i), key)
  {
    var k :| 0 <= k < |entries| && entries[k].key == key;
    FrontAt(entries, i);
    var j := if k == i then 0 else if k < i then k + 1 else k;
    assert Front(entries, i)[j].key == key;
  }

  lemma HitKeepsInv(entries: seq<Entry>, capacity: nat, room: nat, uses: seq<string>, added: map<string, Entry>,
                    purged: nat, i: nat)
    requires Inv(entries, capacity, room, uses, added, purged) && i < |entries| && NotBefore(entries, entries[i].key, i)
    ensures Inv(Front(entries, i), capacity, room, uses + [entries[i].key], added, purged)
  {
    var front, use := Front(entries, i), entries[i].key;
    HitKeepsLatest(entries, added, i);
    HitKeepsByUse(entries, uses, i);
    forall key | key in added
      ensures Holds(front, key) || added[key].expire <= purged || |Since(uses + [use], key)| >= room
    {
      if Holds(entries, key) {
        FrontHolds(entries, i, key);
      } else {
        assert entries[i].key == use;
        SinceGrows(uses, use, key);
      }
    }
  }

  lemma PushedAt(entries: seq<Entry>, e: Entry, capacity: nat)
    requires |entries| <= capacity && capacity > 0
    ensures var pushed := Pushed(entries, e, capacity);
            pushed[0] == e && forall j :: 0 < j < |pushed| ==> pushed[j] == entries[j - 1]
  {}

  /** The first entries of their keys behind the new one were that before. */
  lemma PushedFirst(entries: seq<Entry>, e: Entry, pushed: seq<Entry>, j: nat)
    requires 0 < |pushed| <= |entries| + 1
    requires pushed[0] == e && forall j :: 0 < j < |pushed| ==> pushed[j] == entries[j - 1]
    requires 0 < j < |pushed| && NotBefore(pushed, pushed[j].key, j)
    ensures NotBefore(entries, entries[j - 1].key, j - 1) && pushed[j].key != e.key
  {
    forall k | 0 <= k < j - 1
      ensures entries[k].key != entries[j - 1].key
    {
      assert pushed[k + 1] == entries[k];
    }
  }

  lemma PushKeepsLatest(entries: seq<Entry>, added: map<string, Entry>, e: Entry, capacity: nat)
    requires Latest(entries, added) && |entries| <= capacity && capacity > 0 && e.msg.Some?
    requires ExpireBy(entries, e.expire)
    ensures Latest(Pushed(entries, e, capacity), added[e.key := e])
  {
    var pushed, added' := Pushed(entries, e, capacity), added[e.key := e];
    PushedAt(entries, e, capacity);
    assert Real(pushed) && LaterExpireEarlier(pushed);
    forall j: nat | j < |pushed| && NotBefore(pushed, pushed[j].key, j)
      ensures pushed[j].key in added' && added'[pushed[j].key] == pushed[j]
    {
      if j > 0 {
        PushedFirst(entries, e, pushed, j);
      }
    }
  }

  /** A new entry in front keeps the order by use. */
  lemma PushKeepsByUse(entries: seq<Entry>, uses: seq<string>, e: Entry, capacity: nat)
    requires |entries| <= capacity && capacity > 0 && ByUse(entries, uses)
    ensures ByUse(Pushed(entries, e, capacity), uses + [e.key])
  {
    var pushed := Pushed(entries, e, capacity);
    PushedAt(entries, e, capacity);
    forall k: nat, j: nat | k < j < |pushed| && NotBefore(pushed, pushed[j].key, j)
      ensures pushed[k].key in Since(uses + [e.key], pushed[j].key)
    {
      PushedFirst(entries, e, pushed, j);
      SinceGrows(uses, e.key, pushed[j].key);
      assert k > 0 ==> pushed[k] == entries[k - 1];
    }
  }

  /** Adding an answer loses exactly the key of the last entry, and only if there is no room for it, it is
      not the key that is added, and no other entry has it. */
  lemma PushHolds(entries: seq<Entry>, e: Entry, capacity: nat, key: string)
    requires |entries| <= capacity && capacity > 0
    ensures Holds(Pushed(entries, e, capacity), key)
       <==> key == e.key || Holds(entries[..Min(|entries|, capacity - 1)], key)
  {
    var pushed, kept := Pushed(entries, e, capacity), entries[..Min(|entries|, capacity - 1)];
    assert pushed == [e] + kept;
    if Holds(kept, key) {
      var i :| 0 <= i < |kept| && kept[i].key == key;
      assert pushed[i + 1] == kept[i];
    }
    assert pushed[0] == e && forall j :: 0 < j < |pushed| ==> pushed[j] == kept[j - 1];
  }

  /** No key is there twice afterwards if and only if the key that is added is not among those that stay. */
  lemma PushIsUnique(entries: seq<Entry>, e: Entry, capacity: nat)
    requires |entries| <= capacity && capacity > 0 && NoDuplicates(entries)
    ensures NoDuplicates(Pushed(entries, e, capacity)) <==> !Holds(entries[..Min(|entries|, capacity - 1)], e.key)
  {
    var pushed, kept := Pushed(entries, e, capacity), entries[..Min(|entries|, capacity - 1)];
    assert pushed == [e] + kept;
    assert pushed[0] == e && forall j :: 0 < j < |pushed| ==> pushed[j] == kept[j - 1];
    if Holds(kept, e.key) {
      var i :| 0 <= i < |kept| && kept[i].key == e.key;
      assert pushed[i + 1].key == pushed[0].key;
    }
  }

  /** A hit moves entries only, and a purge only takes some out. */
  lemma HitIsUnique(entries: seq<Entry>, i: nat)
    requires i < |entries|
    ensures NoDuplicates(Front(entries, i)) <==> NoDuplicates(entries)
  {
    var front := Front(entries, i);
    FrontAt(entries, i);
    if NoDuplicates(front) {
      forall k, l | 0 <= k < l < |entries|
        ensures entries[k].key != entries[l].key
      {
        assert entries[k] == front[if k == i then 0 else if k < i then k + 1 else k];
        assert entries[l] == front[if l == i then 0 else if l < i then l + 1 else l];
      }
    }
  }

  lemma {:induction false} PurgeIsUnique(entries: seq<Entry>, now: nat)
    requires NoDuplicates(entries)
    ensures NoDuplicates(Live(entries, now))
  {
    if entries == [] {
    } else {
      var init, last := entries[..|entries| - 1], entries[|entries| - 1];
      assert entries == init + [last];
      PurgeIsUnique(init, now);
      LiveKeys(init, now);
      assert last.key !in Keys(init);
      var live := Live(init, now);
      assert forall k :: 0 <= k < |live| ==> live[k].key in Keys(live);
    }
  }

  /** An entry that is dropped, the only one of its key, has seen as many other keys since its last use as
      the entries then have: the capacity, unless some key is there twice. */
  lemma DroppedWasOld(entries: seq<Entry>, uses: seq<string>, e: Entry)
    requires entries != [] && ByUse(entries, uses)
    requires var last := entries[|entries| - 1]; last.key != e.key && NotBefore(entries, last.key, |entries| - 1)
    ensures |Since(uses + [e.key], entries[|entries| - 1].key)| >= |Keys(Pushed(entries, e, |entries|))|
  {
    var init, last := entries[..|entries| - 1], entries[|entries| - 1];
    var pushed := Pushed(entries, e, |entries|);
    assert entries == init + [last];
    SnocByUse(init, last, uses);
    SinceOneMore(uses, e.key, last.key);
    PushedAt(entries, e, |entries|);
    assert Keys(pushed) <= Keys(init) + {e.key};
    SubsetIsSmaller(Keys(pushed), Since(uses + [e.key], last.key));
  }

  /** How many other keys may at least be used before a key is dropped: as many different keys as there
      were after each time that an entry was dropped. */
  function Room(entries: seq<Entry>, e: Entry, capacity: nat, room: nat): nat
    requires |entries| <= capacity && capacity > 0
  {
    if |entries| < capacity then room else Min(room, |Keys(Pushed(entries, e, capacity))|)
  }

  /** It is the whole capacity as long as no key is there twice. */
  lemma RoomStays(entries: seq<Entry>, e: Entry, capacity: nat, room: nat)
    requires |entries| <= capacity && capacity > 0 && room <= capacity
    requires NoDuplicates(Pushed(entries, e, capacity))
    ensures Room(entries, e, capacity, room) == room
  {
    KeysOfDistinct(Pushed(entries, e, capacity));
  }

  lemma PushForgets(entries: seq<Entry>, capacity: nat, room: nat, uses: seq<string>, added: map<string, Entry>, purged: nat,
                    e: Entry, key: string)
    requires Inv(entries, capacity, room, uses, added, purged) && capacity > 0
    requires key in added && key != e.key
    ensures Holds(Pushed(entries, e, capacity), key) || added[key].expire <= purged
            || |Since(uses + [e.key], key)| >= Room(entries, e, capacity, room)
  {
    SinceGrows(uses, e.key, key);
    PushHolds(entries, e, capacity, key);
    if Holds(entries, key) {
      var i := FirstOf(entries, key);
      if i == capacity - 1 {
        DroppedWasOld(entries, uses, e);
      } else {
        assert entries[..Min(|entries|, capacity - 1)][i].key == key;
      }
    }
  }

  lemma PushKeepsInv(entries: seq<Entry>, capacity: nat, room: nat, uses: seq<string>, added: map<string, Entry>,
                     purged: nat, e: Entry)
    requires Inv(entries, capacity, room, uses, added, purged) && capacity > 0 && e.msg.Some?
    requires ExpireBy(entries, e.expire)
    ensures Inv(Pushed(entries, e, capacity), capacity, Room(entries, e, capacity, room), uses + [e.key],
                added[e.key := e], purged)
  {
    var pushed, added' := Pushed(entries, e, capacity), added[e.key := e];
    PushKeepsLatest(entries, added, e, capacity);
    PushKeepsByUse(entries, uses, e, capacity);
    forall key | key in added'
      ensures Holds(pushed, key) || added'[key].expire <= purged
              || |Since(uses + [e.key], key)| >= Room(entries, e, capacity, room)
    {
      if key == e.key {
        assert pushed[0] == e;
      } else {
        PushForgets(entries, capacity, room, uses, added, purged, e, key);
      }
    }
  }

  function Pushes(entries: seq<Entry>, e: Entry, m: nat, capacity: nat): (r: seq<Entry>)
    requires |entries| <= capacity && capacity > 0
    ensures |r| <= capacity
  {
    if m == 0 then entries else Pushed(Pushes(entries, e, m - 1, capacity), e, capacity)
  }

  lemma {:induction false} PushesAre(b: Entry, a: Entry, m: nat, capacity: nat)
    requires m < capacity
    ensures Pushes([b], a, m, capacity) == seq(m, _ => a) + [b]
  {
    if m == 0 {
      assert seq(0, _ => a) == [];
    } else {
      PushesAre(b, a, m - 1, capacity);
      assert seq(m, _ => a) == [a] + seq(m - 1, _ => a);
    }
  }

  /** Concurrent queries that miss a key all add it. At any capacity n, n - 1 of them leave room for so
      few other keys that an entry is dropped after only two, which is as many as DroppedWasOld says. */
  lemma CopiesForget(n: nat, a: Entry, b: Entry, c: Entry)
    requires n >= 2 && a.key != b.key && b.key != c.key && a.key != c.key
    ensures var entries := Pushed(Pushes([b], a, n - 1, n), c, n);
            !Holds(entries, b.key) && Keys(entries) == {a.key, c.key}
    ensures Since([b.key] + seq(n - 1, _ => a.key) + [c.key], b.key) == {a.key, c.key}
  {
    PushesAre(b, a, n - 1, n);
    var full := Pushes([b], a, n - 1, n);
    var entries := Pushed(full, c, n);
    assert full[..n - 1] == seq(n - 1, _ => a);
    assert entries == [c] + seq(n - 1, _ => a);
    assert entries[0] == c && entries[1] == a && forall i :: 1 < i < n ==> entries[i] == a;
    var uses := [b.key] + seq(n - 1, _ => a.key) + [c.key];
    assert uses[0] == b.key && uses[1] == a.key && uses[n] == c.key && forall i :: 1 <= i < n ==> uses[i] == a.key;
    assert forall i :: 1 <= i <= n ==> b.key !in uses[i..];
    assert uses[0..][0] == b.key;
  }

  // The array.
  // The array.

  /** `moveToFront`: an index out of range is ignored. */
  method MoveToFront<T>(s: array<T>, len: nat, idx: int)
    requires len <= s.Length
    modifies s
    ensures s[..len] == if 0 <= idx < len then Front(old(s[..len]), idx) else old(s[..len])
    ensures s[len..] == old(s[len..])
  {
    if idx > 0 && idx < len {
      FrontAt(s[..len], idx);
      var entry := s[idx];
      forall i | 0 < i <= idx {
        s[i] := s[i - 1];
      }
      s[0] := entry;
    }
  }

  /** The time that passes between the steps of a query. */
  class Clock {
    var now: nat

    constructor () { now := 0; }

    method Now() returns (t: nat)
      modifies this
      ensures t == now >= old(now)
    {
      var later: nat := *;
      if later > now {
        now := later;
      }
      t := now;
    }
  }

  datatype Outcome = Answer(msg: Message, hit: bool) | Error | Panic

  /** A miss is answered as the inner resolver answers, an error or a message, but that a cache without
      capacity panics on a message that it should keep. */
  function Passed(inner: Option<Message>, capacity: nat): Outcome {
    if inner.None? then Error
    else if capacity == 0 && (inner.value.rcode == Success || inner.value.rcode == NameError) then Panic
    else Answer(inner.value, false)
  }

  /** What a query changes in the last answers and the uses: a cacheable answer is added for its key, a hit
      or an added answer uses its key, and nothing else does. */
  ghost predicate Learns(added: map<string, Entry>, uses: seq<string>, added': map<string, Entry>, uses': seq<string>,
                         key: string, r: Outcome, now: nat) {
    match r
    case Answer(msg, hit) =>
      if hit then added' == added && uses' == uses + [key]
      else if msg.rcode == OtherError then added' == added && uses' == uses
      else added' == added[key := Entry(key, Some(msg), now + 60)] && uses' == uses + [key]
    case Error => added' == added && uses' == uses
    case Panic => true
  }

  /** `simpleLRUCacheResolver`. */
  class Resolver {
    // `cache` is buf[..len], with capacity buf.Length; `entries` is what it holds.
    const buf: array<Entry>
    var len: nat
    const clock: Clock
    ghost var entries: seq<Entry>
    // The keys used so far, hit or added; the last answer added for each; the last purge.
    ghost var uses: seq<string>
    ghost var added: map<string, Entry>
    ghost var purged: nat
    // How many other keys may at least be used before a key is dropped.
    ghost var room: nat

    ghost predicate Shape()
      reads this, buf, clock
    {
      && len <= buf.Length && entries == buf[..len] && purged <= clock.now && room <= buf.Length
      && ExpireBy(entries, clock.now + TTL)
    }

    /** What every critical section keeps, whatever other queries do in between. */
    ghost predicate Valid()
      reads this, buf, clock
    {
      Shape() && Inv(entries, buf.Length, room, uses, added, purged)
    }

    /** Valid, or still new. */
    ghost predicate Usable()
      reads this, buf, clock
    {
      Shape() && (Inv(entries, buf.Length, room, uses, added, purged) || Unused(entries, uses, added))
    }

    /** A new cache is full of entries that have expired long ago. */
    constructor (numEntries: nat)
      ensures Usable() && Unused(entries, uses, added) && fresh(buf) && fresh(clock)
      ensures room == buf.Length == numEntries
    {
      buf := new Entry[numEntries](_ => Entry("", None, 0));
      len := numEntries;
      clock := new Clock();
      uses, added, purged, room := [], map[], 0, numEntries;
      new;
      entries := buf[..len];
    }

    /** `RemoveExpired`: the live entries move up, in order. */
    method RemoveExpired()
      requires Usable()
      modifies this`len, this`entries, this`purged, buf, clock
      ensures Valid() && AllLive(entries, purged)
      ensures purged == clock.now && Purges(old(entries), entries, purged)
      ensures old(NoDuplicates(entries) || Unused(entries, uses, added)) ==> NoDuplicates(entries)
    {
      var now := clock.Now();
      ghost var live := Purge(entries, buf.Length, room, uses, added, purged, now);
      LiveExpireBy(entries, now, old(clock.now) + TTL, now + TTL);
      len := KeepLive(buf, len, now, entries, live);
      entries, purged := live, now;
    }

    /** `SearchCache`: finds the key if it is there, and then moves it to the front. */
    method SearchCache(key: string) returns (msg: Option<Message>)
      requires Valid()
      modifies this`entries, this`uses, buf
      ensures Valid() && (NoDuplicates(entries) <==> old(NoDuplicates(entries)))
      ensures msg.Some? <==> Holds(old(entries), key)
      ensures msg.None? ==> uses == old(uses) && entries == old(entries)
      ensures msg.Some? ==> uses == old(uses) + [key] && key in added && added[key].msg == msg
      ensures msg.Some? ==> MovedUp(old(entries), entries, key)
    {
      var ei := 0;
      while ei < len && buf[ei].key != key
        invariant ei <= len && NotBefore(entries, key, ei)
      {
        ei := ei + 1;
      }
      if ei == len {
        return None;
      }
      msg := buf[ei].msg;
      Hit(entries, buf.Length, room, uses, added, purged, clock.now + TTL, ei);
      MoveToFront(buf, len, ei);
      entries := Front(entries, ei);
      uses := uses + [key];
    }

    /** `AddToCache`, whether or not the key is there by now. With no capacity the shift by one is out
        of range. */
    method AddToCache(key: string, msg: Message) returns (panic: bool)
      requires Valid()
      modifies this`len, this`entries, this`uses, this`added, this`room, buf, clock
      ensures panic <==> buf.Length == 0
      ensures !panic ==> Valid() && uses == old(uses) + [key]
      ensures !panic ==> added == old(added)[key := Entry(key, Some(msg), clock.now + 60)]
      ensures !panic ==> entries == Pushed(old(entries), added[key], buf.Length)
      ensures !panic ==> room == Room(old(entries), added[key], buf.Length, old(room))
    {
      var newSize := len + 1;
      if newSize > buf.Length {
        newSize := buf.Length;
      }
      if newSize == 0 {
        return true;
      }
      var now := clock.Now();
      var e := Entry(key, Some(msg), now + TTL);
      Insert(newSize, e);
      panic := false;
    }

    /** The shift by one, and the new entry in front. */
    method Insert(newSize: nat, e: Entry)
      requires Valid() && e.msg.Some? && e.expire == clock.now + TTL
      requires 0 < newSize == Min(len + 1, buf.Length)
      modifies this`len, this`entries, this`uses, this`added, this`room, buf
      ensures Valid() && entries == Pushed(old(entries), e, buf.Length)
      ensures uses == old(uses) + [e.key] && added == old(added)[e.key := e]
      ensures room == Room(old(entries), e, buf.Length, old(room))
    {
      PushKeepsInv(entries, buf.Length, room, uses, added, purged, e);
      PushedIs(entries, e, buf.Length);
      len := newSize;
      ShiftIn(buf, newSize, e);
      room := Room(entries, e, buf.Length, room);
      entries := Pushed(entries, e, buf.Length);
      uses, added := uses + [e.key], added[e.key := e];
    }

    /** The part of `Query` after a miss, with what the inner resolver answers. */
    method AskInner(key: string, inner: Option<Message>) returns (r: Outcome)
      requires Valid()
      modifies this`len, this`entries, this`uses, this`added, this`room, buf, clock
      ensures r == Passed(inner, buf.Length)
      ensures r != Panic ==> Valid() && (old(NoDuplicates(entries)) && !Holds(old(entries), key) ==>
                                         NoDuplicates(entries) && room == old(room))
      ensures r.Answer? && r.msg.rcode != OtherError ==> Holds(entries, key)
      ensures Learns(old(added), old(uses), added, uses, key, r, clock.now)
    {
      if inner.None? {
        return Error;
      }
      var msg := inner.value;
      if msg.rcode == Success || msg.rcode == NameError {
        var panic := AddToCache(key, msg);
        if panic {
          return Panic;
        }
        PushOfMissing(old(entries), added[key], buf.Length, old(room));
        assert entries[0].key == key;
      }
      r := Answer(msg, false);
    }

    /** `Query` once the expired entries are gone. */
    method Lookup(key: string, inner: Option<Message>) returns (r: Outcome)
      requires Valid()
      modifies this`len, this`entries, this`uses, this`added, this`room, buf, clock
      ensures r != Panic ==> Valid() && (old(NoDuplicates(entries)) ==> NoDuplicates(entries) && room == old(room))
      ensures if Holds(old(entries), key) then r.Answer? && r.hit else r == Passed(inner, buf.Length)
      ensures r.Answer? && r.hit ==> key in added && added[key].msg == Some(r.msg)
      ensures r.Answer? && (r.hit || r.msg.rcode != OtherError) ==> Holds(entries, key)
      ensures Learns(old(added), old(uses), added, uses, key, r, clock.now)
    {
      var found := SearchCache(key);
      if found.Some? {
        r := Answer(found.value, true);
        MovedUpHolds(old(entries), entries, key);
      } else {
        r := AskInner(key, inner);
      }
    }

    /** `Query`, with what the inner resolver would answer. A hit is its last cacheable answer for the key,
        from less than 60 seconds ago; a miss is answered as the inner resolver answers, and a success or
        a name error is then cached. A key that was cached less than 60 seconds ago is a hit if fewer than
        `room` other keys were used since its last use. That is the capacity, and stays it, unless
        concurrent queries have added a key twice. Only a cache without capacity panics. */
    method Query(q: Question, inner: Option<Message>) returns (r: Outcome)
      requires Usable()
      modifies this`len, this`entries, this`uses, this`added, this`purged, this`room, buf, clock
      ensures r != Panic ==> Valid()
      ensures old(NoDuplicates(entries) || Unused(entries, uses, added)) && r != Panic ==>
        NoDuplicates(entries) && room == old(room)
      ensures if Holds(Live(old(entries), purged), MakeCacheKey(q)) then r.Answer? && r.hit
              else if inner.None? then r == Error
              else if buf.Length == 0 && inner.value.rcode != OtherError then r == Panic
              else r == Answer(inner.value, false)
      ensures r.Answer? && r.hit ==>
        IsFresh(old(added), purged, MakeCacheKey(q)) && old(added)[MakeCacheKey(q)].msg == Some(r.msg)
      ensures IsFresh(old(added), purged, MakeCacheKey(q)) && |Since(old(uses), MakeCacheKey(q))| < old(room)
        ==> r.Answer? && r.hit
      ensures r.Answer? && (r.hit || r.msg.rcode != OtherError) ==> Holds(entries, MakeCacheKey(q))
      ensures Learns(old(added), old(uses), added, uses, MakeCacheKey(q), r, clock.now)
    {
      RemoveExpired();
      var cacheKey := MakeCacheKey(q);
      HitOrForgotten(entries, buf.Length, room, uses, added, purged, cacheKey);
      r := Lookup(cacheKey, inner);
    }
  }

  lemma MovedUpHolds(before: seq<Entry>, after: seq<Entry>, key: string)
    requires MovedUp(before, after, key)
    ensures Holds(after, key)
  {
    assert after[0].key == key;
  }

  /** A key that is not there can be added without being there twice. */
  lemma PushOfMissing(entries: seq<Entry>, e: Entry, capacity: nat, room: nat)
    requires |entries| <= capacity && capacity > 0 && room <= capacity
    ensures NoDuplicates(entries) && !Holds(entries, e.key) ==>
      NoDuplicates(Pushed(entries, e, capacity)) && Room(entries, e, capacity, room) == room
  {
    if NoDuplicates(entries) && !Holds(entries, e.key) {
      PushIsUnique(entries, e, capacity);
      RoomStays(entries, e, capacity, room);
    }
  }

  /** The key was answered by the inner resolver, and not too long ago. */
  predicate IsFresh(added: map<string, Entry>, now: nat, key: string) {
    key in added && now < added[key].expire
  }

  /** What a lookup after a purge finds: a fresh answer, unless it is forgotten. */
  lemma HitOrForgotten(entries: seq<Entry>, capacity: nat, room: nat, uses: seq<string>, added: map<string, Entry>,
                       now: nat, key: string)
    requires AllLive(entries, now) && Inv(entries, capacity, room, uses, added, now)
    ensures Holds(entries, key) ==> IsFresh(added, now, key)
    ensures IsFresh(added, now, key) && |Since(uses, key)| < room ==> Holds(entries, key)
  {
    if Holds(entries, key) {
      var i := FirstOf(entries, key);
      assert NotBefore(entries, entries[i].key, i);
    }
  }

  lemma {:induction false} LiveIsLive(entries: seq<Entry>, now: nat)
    ensures AllLive(Live(entries, now), now)
  {
    if entries == [] {
    } else {
      LiveIsLive(entries[..|entries| - 1], now);
    }
  }

  lemma Hit(entries: seq<Entry>, capacity: nat, room: nat, uses: seq<string>, added: map<string, Entry>, purged: nat,
            limit: nat, i: nat)
    requires Inv(entries, capacity, room, uses, added, purged) && i < |entries| && NotBefore(entries, entries[i].key, i)
    requires ExpireBy(entries, limit)
    ensures ExpireBy(Front(entries, i), limit)
    ensures Holds(entries, entries[i].key) && MovedUp(entries, Front(entries, i), entries[i].key)
    ensures entries[i].key in added && added[entries[i].key].msg == entries[i].msg && entries[i].msg.Some?
    ensures Inv(Front(entries, i), capacity, room, uses + [entries[i].key], added, purged)
    ensures NoDuplicates(Front(entries, i)) <==> NoDuplicates(entries)
  {
    HitKeepsInv(entries, capacity, room, uses, added, purged, i);
    HitIsUnique(entries, i);
    FrontAt(entries, i);
  }

  lemma PushedIs(entries: seq<Entry>, e: Entry, capacity: nat)
    requires |entries| <= capacity && capacity > 0
    ensures var n := Min(|entries| + 1, capacity); Pushed(entries, e, capacity) == [e] + entries[..n - 1]
  {}

  /** `copy(cache[1:], cache[:n-1])` and the new entry in front. */
  method ShiftIn(buf: array<Entry>, n: nat, e: Entry)
    requires 0 < n <= buf.Length
    modifies buf
    ensures buf[..n] == [e] + old(buf[..n - 1])
  {
    forall i | 0 < i < n {
      buf[i] := buf[i - 1];
    }
    buf[0] := e;
  }

  predicate ExpireBy(entries: seq<Entry>, limit: nat) {
    forall i :: 0 <= i < |entries| ==> entries[i].expire <= limit
  }

  predicate AllLive(entries: seq<Entry>, now: nat) {
    forall i :: 0 <= i < |entries| ==> entries[i].expire > now
  }

  /** A new cache. */
  ghost predicate Unused(entries: seq<Entry>, uses: seq<string>, added: map<string, Entry>) {
    uses == [] && added == map[] && forall i :: 0 <= i < |entries| ==> entries[i].expire == 0
  }

  lemma LiveExpireBy(before: seq<Entry>, now: nat, limit: nat, later: nat)
    requires ExpireBy(before, limit) && limit <= later
    ensures ExpireBy(Live(before, now), later)
  {
    var live := Live(before, now);
    forall i | 0 <= i < |live|
      ensures live[i].expire <= later
    {
      LiveComesFrom(before, now, live[i]);
    }
  }

  lemma Purge(before: seq<Entry>, capacity: nat, room: nat, uses: seq<string>, added: map<string, Entry>, purged: nat, now: nat)
    returns (live: seq<Entry>)
    requires Inv(before, capacity, room, uses, added, purged) || Unused(before, uses, added)
    requires purged <= now && room <= capacity
    ensures Purges(before, live, now) && AllLive(live, now) && Inv(live, capacity, room, uses, added, now)
    ensures NoDuplicates(before) || Unused(before, uses, added) ==> NoDuplicates(live)
  {
    live := Live(before, now);
    LiveIsLive(before, now);
    if Unused(before, uses, added) {
      NothingLives(before, now);
    } else {
      PurgeKeepsInv(before, capacity, room, uses, added, purged, now);
      if NoDuplicates(before) {
        PurgeIsUnique(before, now);
      }
    }
  }

  /** The loop of `RemoveExpired`, in place. */
  method KeepLive(buf: array<Entry>, len: nat, now: nat, ghost before: seq<Entry>, ghost live: seq<Entry>)
    returns (last: nat)
    requires len <= buf.Length && before == buf[..len] && Purges(before, live, now)
    modifies buf
    ensures last <= len && buf[..last] == live
  {
    last := 0;
    var i := 0;
    while i < len
      invariant 0 <= last <= i <= len
      invariant buf[..last] == Live(before[..i], now)
      invariant forall k :: i <= k < len ==> buf[k] == before[k]
    {
      LiveOneMore(before, i, now);
      if buf[i].expire > now {
        buf[last] := buf[i];
        last := last + 1;
      }
      i := i + 1;
    }
    assert before[..len] == before;
  }

  lemma LiveOneMore(entries: seq<Entry>, i: nat, now: nat)
    requires i < |entries|
    ensures Live(entries[..i + 1], now) == Live(entries[..i], now) + if entries[i].expire > now then [entries[i]] else []
  {
    assert entries[..i + 1][..i] == entries[..i];
  }

  lemma {:induction false} NothingLives(entries: seq<Entry>, now: nat)
    requires forall i :: 0 <= i < |entries| ==> entries[i].expire == 0
    ensures Live(entries, now) == []
  {
    if entries == [] {
    } else {
      NothingLives(entries[..|entries| - 1], now);
    }
  }
}
