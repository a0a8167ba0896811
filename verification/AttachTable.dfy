/** The table of attached containers and the uprobe links it owns. */
module Attaching {
  import opened Base

  // ---------------------------------------------------------------- container ids

  function LowerChar(c: char): char {
    if 'A' <= c <= 'Z' then (c as int + 32) as char else c
  }

  function ToLower(s: string): string {
    seq(|s|, i requires 0 <= i < |s| => LowerChar(s[i]))
  }

  function TrimDigest(id: string): string {
    if "sha256:" <= id then id[7..] else id
  }

  function Normal(id: string): string {
    ToLower(TrimDigest(id))
  }

  predicate IdsMatch(a: string, b: string) {
    var x, y := Normal(a), Normal(b);
    x == y || (|x| >= 12 && |y| >= 12 && x[..12] == y[..12])
  }

  /** The first twelve characters, or all of a shorter id. */
  function ClassOf(id: string): string {
    var n := Normal(id);
    if |n| < 12 then n else n[..12]
  }

  /** Two ids match exactly when they are in the same class. */
  lemma {:induction false} MatchIsSameClass(a: string, b: string)
    ensures IdsMatch(a, b) <==> ClassOf(a) == ClassOf(b)
  {
    var x, y := Normal(a), Normal(b);
    if |x| >= 12 && |y| < 12 {
      assert |ClassOf(a)| == 12;
    }
  }

  lemma {:induction false} MatchEquivalence(a: string, b: string, c: string)
    ensures IdsMatch(a, a)
    ensures IdsMatch(a, b) ==> IdsMatch(b, a)
    ensures IdsMatch(a, b) && IdsMatch(b, c) ==> IdsMatch(a, c)
  {
    MatchIsSameClass(a, b);
    MatchIsSameClass(b, c);
    MatchIsSameClass(a, c);
  }

  /** The id behind a raw one: what follows the digest prefix, or all of an id without it. */
  predicate IdBehind(raw: string, id: string) {
    raw == "sha256:" + id || (raw == id && !("sha256:" <= id))
  }

  predicate SameLetter(a: char, b: char) {
    a == b || ('A' <= a <= 'Z' && b as int == a as int + 32) || ('A' <= b <= 'Z' && a as int == b as int + 32)
  }

  predicate SameUpToCase(a: string, b: string) {
    |a| == |b| && forall i :: 0 <= i < |a| ==> SameLetter(a[i], b[i])
  }

  lemma {:induction false} LowerAgree(a: string, b: string)
    ensures ToLower(a) == ToLower(b) <==> SameUpToCase(a, b)
  {
    if ToLower(a) == ToLower(b) {
      forall i | 0 <= i < |a|
        ensures SameLetter(a[i], b[i])
      {
        assert ToLower(a)[i] == ToLower(b)[i];
      }
    }
  }

  lemma {:induction false} TrimsDigest(raw: string, id: string)
    requires IdBehind(raw, id)
    ensures Normal(raw) == ToLower(id)
  {
    if raw == "sha256:" + id {
      assert raw[7..] == id;
    }
  }

  /** For ids with or without the digest prefix, in any case: when both are at least twelve characters
      long behind it, they match exactly when the first twelve agree up to case; otherwise exactly when
      they are the same up to case. */
  lemma {:induction false} MatchExactly(a: string, x: string, b: string, y: string)
    requires IdBehind(a, x) && IdBehind(b, y)
    ensures IdsMatch(a, b) <==>
              if |x| >= 12 && |y| >= 12 then SameUpToCase(x[..12], y[..12]) else SameUpToCase(x, y)
  {
    TrimsDigest(a, x);
    TrimsDigest(b, y);
    LowerAgree(x, y);
    if |x| >= 12 && |y| >= 12 {
      assert ToLower(x[..12]) == ToLower(x)[..12] && ToLower(y[..12]) == ToLower(y)[..12];
      LowerAgree(x[..12], y[..12]);
    }
  }

  /** Every raw id has one id behind it, and only the prefix in lower case is taken off: written
      otherwise it is part of the id. */
  lemma {:induction false} OneIdBehind(raw: string) returns (id: string)
    ensures IdBehind(raw, id) && forall other :: IdBehind(raw, other) ==> other == id
  {
    id := if "sha256:" <= raw then raw[7..] else raw;
    assert "sha256:" <= raw ==> raw == "sha256:" + id;
    forall other | IdBehind(raw, other)
      ensures other == id
    {
      if raw == "sha256:" + other {
        assert raw[7..] == other;
      }
    }
  }

  /** So upper-case ids match lower-case ones, but the same id written with an upper-case prefix may not. */
  lemma {:induction false} UpperPrefixDiffers()
    ensures SameUpToCase("SHA256:0123456789ab", "sha256:0123456789ab")
    ensures !IdsMatch("SHA256:0123456789ab", "sha256:0123456789ab")
  {
    var a, x := "SHA256:0123456789ab", "0123456789ab";
    assert a[0] != "sha256:"[0];
    assert "sha256:0123456789ab" == "sha256:" + x;
    MatchExactly(a, a, "sha256:0123456789ab", x);
    assert a[..12][0] == 'S' && x[..12][0] == '0';
  }

  predicate Contains(s: string, part: string) {
    exists i :: 0 <= i <= |s| && part <= s[i..]
  }

  /** A lower-case cgroup path names a container by its full id or by its first twelve characters. */
  predicate NamedIn(cgroup: string, id: string) {
    var low := ToLower(id);
    var needle := if |low| > 12 then low[..12] else low;
    Contains(cgroup, low) || (|needle| >= 12 && Contains(cgroup, needle))
  }

  lemma {:induction false} ContainsMeans(s: string, part: string)
    ensures Contains(s, part) <==> exists before: string, after: string :: s == before + part + after
  {
    if Contains(s, part) {
      var i :| 0 <= i <= |s| && part <= s[i..];
      assert s == s[..i] + part + s[i + |part|..];
    }
    if before: string, after: string :| s == before + part + after {
      assert s[|before|..] == part + after;
    }
  }

  lemma {:induction false} NamedByNeedle(cgroup: string, id: string)
    ensures NamedIn(cgroup, id) <==> Contains(cgroup, ToLower(if |id| < 12 then id else id[..12]))
  {
    var low := ToLower(id);
    if |id| >= 12 {
      assert ToLower(id[..12]) == low[..12];
      if i :| 0 <= i <= |cgroup| && low <= cgroup[i..] {
        assert low[..12] <= cgroup[i..];
      }
    }
  }

  /** A container is named in a lower-case cgroup path exactly when its id, up to case, stands
      somewhere in it: all of an id shorter than twelve characters, the first twelve of a longer one. */
  lemma {:induction false} NamedExactly(cgroup: string, id: string, key: string)
    requires SameUpToCase(key, if |id| < 12 then id else id[..12])
    requires forall i :: 0 <= i < |key| ==> !('A' <= key[i] <= 'Z')
    ensures NamedIn(cgroup, id) <==> exists before: string, after: string :: cgroup == before + key + after
  {
    var part := if |id| < 12 then id else id[..12];
    LowerAgree(key, part);
    assert ToLower(key) == key;
    hide NamedIn, Contains, ToLower, SameUpToCase;
    NamedByNeedle(cgroup, id);
    ContainsMeans(cgroup, key);
  }

  // ---------------------------------------------------------------- the table

  datatype Meta = Meta(podName: string, podNamespace: string, runtime: string, containerName: string)

  /** Where a link is: in an attach in progress, at one position of one attach set, or closed. */
  datatype Place = Flying | Held(id: string, k: nat) | Closed

  /** What the system answers while hooks are attached. */
  datatype Hooks = Hooks(wantOpenSSL: bool, wantGo: bool, exe: bool, write: bool, writeEx: bool, go: bool)

  /** How many links an attach ends up with: both OpenSSL write functions or neither, and Go's. */
  function HookCount(h: Hooks): nat {
    (if h.wantOpenSSL && h.exe && h.write && h.writeEx then 2 else 0) + (if h.wantGo && h.go then 1 else 0)
  }

  /** Puts the links at the positions they have in the list. */
  ghost function Hold(place: seq<Place>, id: string, links: seq<nat>): (r: seq<Place>)
    requires NoDup(links) && forall i :: 0 <= i < |links| ==> links[i] < |place|
    ensures |r| == |place|
    ensures forall l :: 0 <= l < |r| && l !in links ==> r[l] == place[l]
    ensures forall i :: 0 <= i < |links| ==> r[links[i]] == Held(id, i)
  {
    if links == [] then place else
    var n := |links| - 1;
    assert links == links[..n] + [links[n]];
    Hold(place, id, links[..n])[links[n] := Held(id, n)]
  }

  ghost function Release(place: seq<Place>, removed: set<string>): (r: seq<Place>)
    ensures |r| == |place|
    ensures forall l :: 0 <= l < |r| ==>
              r[l] == if place[l].Held? && place[l].id in removed then Flying else place[l]
  {
    seq(|place|, l requires 0 <= l < |place| =>
      if place[l].Held? && place[l].id in removed then Flying else place[l])
  }

  ghost predicate NamedBy(id: string, cids: seq<string>) {
    exists i :: 0 <= i < |cids| && cids[i] != "" && IdsMatch(id, cids[i])
  }

  lemma {:induction false} NamedByNext(cids: seq<string>, i: nat)
    requires i < |cids|
    ensures forall k :: NamedBy(k, cids[..i + 1]) <==> NamedBy(k, cids[..i]) || (cids[i] != "" && IdsMatch(k, cids[i]))
  {
    forall k
      ensures NamedBy(k, cids[..i + 1]) <==> NamedBy(k, cids[..i]) || (cids[i] != "" && IdsMatch(k, cids[i]))
    {
      var more := cids[..i + 1];
      assert more[i] == cids[i];
      assert forall j :: 0 <= j < i ==> more[j] == cids[..i][j];
    }
  }

  /** Both functions of OpenSSL or neither, and Go's on its own account. */
  lemma {:induction false} HookCounts(h: Hooks)
    ensures var openSSL, go := h.wantOpenSSL && h.exe && h.write && h.writeEx, h.wantGo && h.go;
            && (openSSL && go ==> HookCount(h) == 3) && (openSSL && !go ==> HookCount(h) == 2)
            && (!openSSL && go ==> HookCount(h) == 1) && (!openSSL && !go ==> HookCount(h) == 0)
  {
  }

  predicate OfPod(meta: Meta, podName: string, podNamespace: string) {
    meta.podName == podName && meta.podNamespace == podNamespace
  }

  /** Links that were in a set may have been closed; nothing else happened to any. */
  ghost predicate OnlyClosed(before: seq<Place>, after: seq<Place>) {
    && |after| == |before|
    && forall l :: 0 <= l < |after| ==> after[l] == before[l] || (before[l].Held? && after[l].Closed?)
  }

  class AttachTable {
    var byID: map<string, seq<nat>>
    var metaByID: map<string, Meta>
    var closes: seq<nat>          // history: for each link ever opened, how often it was closed
    ghost var place: seq<Place>

    /** Both maps have the same keys, and every link ever opened is in flight and open, or in
        exactly one attach set, once, and open, or in none and closed exactly once. */
    ghost predicate Valid()
      reads this
    {
      && byID.Keys == metaByID.Keys
      && |closes| == |place|
      && (forall id, k :: id in byID && 0 <= k < |byID[id]| ==>
            byID[id][k] < |place| && place[byID[id][k]] == Held(id, k))
      && (forall l :: 0 <= l < |place| && place[l].Held? ==>
            place[l].id in byID && place[l].k < |byID[place[l].id]| && byID[place[l].id][place[l].k] == l)
      && (forall l :: 0 <= l < |place| ==> closes[l] == if place[l].Closed? then 1 else 0)
    }

    /** No two entries are for the same container. */
    ghost predicate Separated()
      reads this
    {
      forall a, b :: a in byID && b in byID && IdsMatch(a, b) ==> a == b
    }

    constructor ()
      ensures Valid() && Separated() && byID == map[] && place == []
    {
      byID, metaByID, closes, place := map[], map[], [], [];
    }

    method Open() returns (l: nat)
      requires Valid()
      modifies `closes, `place
      ensures Valid() && l == |old(place)| && place == old(place) + [Flying]
    {
      l := |closes|;
      closes, place := closes + [0], place + [Flying];
    }

    /** Closes links that are in no attach set. */
    method CloseLinks(links: seq<nat>)
      requires Valid() && NoDup(links)
      requires forall i :: 0 <= i < |links| ==> links[i] < |place| && place[links[i]].Flying?
      modifies `closes, `place
      ensures Valid() && |place| == |old(place)|
      ensures forall l :: 0 <= l < |place| ==> place[l] == if l in links then Closed else old(place[l])
    {
      var i := 0;
      while i < |links|
        invariant 0 <= i <= |links|
        invariant Valid() && |place| == |old(place)|
        invariant forall l :: 0 <= l < |place| ==> place[l] == if l in links[..i] then Closed else old(place[l])
      {
        assert links[i] !in links[..i];
        closes := closes[links[i] := closes[links[i]] + 1];
        place := place[links[i] := Closed];
        i := i + 1;
      }
    }

    /** Hooks both OpenSSL write functions of one executable, or neither. */
    method AttachOpenSSL(h: Hooks) returns (links: seq<nat>)
      requires Valid()
      modifies `closes, `place
      ensures Valid() && old(place) <= place
      ensures if h.exe && h.write && h.writeEx
              then links == [|old(place)|, |old(place)| + 1] && place == old(place) + [Flying, Flying]
              else links == [] && forall l :: |old(place)| <= l < |place| ==> place[l].Closed?
    {
      if !h.exe || !h.write {
        return [];
      }
      var lw := Open();
      if !h.writeEx {
        CloseLinks([lw]);
        return [];
      }
      var lex := Open();
      return [lw, lex];
    }

    /** Gives the links to the container, or closes them when it already has some. */
    method RegisterAttach(id: string, meta: Meta, links: seq<nat>)
      requires Valid() && NoDup(links)
      requires forall i :: 0 <= i < |links| ==> links[i] < |place| && place[links[i]].Flying?
      modifies this
      ensures Valid() && |place| == |old(place)|
      ensures if id in old(byID)
              then byID == old(byID) && metaByID == old(metaByID)
              else byID == old(byID)[id := links] && metaByID == old(metaByID)[id := meta]
      ensures forall l :: 0 <= l < |place| && l !in links ==> place[l] == old(place[l])
      ensures forall l :: l in links ==> if id in old(byID) then place[l].Closed? else place[l].Held?
    {
      if id in byID {
        CloseLinks(links);
        return;
      }
      byID, metaByID := byID[id := links], metaByID[id := meta];
      place := Hold(place, id, links);
    }

    method SetMeta(id: string, meta: Meta)
      requires Valid() && id in byID
      modifies `metaByID
      ensures Valid() && metaByID == old(metaByID)[id := meta]
    {
      metaByID := metaByID[id := meta];
    }

    /** Attaches to a container not yet in the table; otherwise only records the metadata. A hook
        that fails half-way leaves no open link behind. */
    method AttachUprobes(id: string, meta: Meta, h: Hooks)
      requires Valid()
      modifies this
      ensures Valid() && old(place) <= place
      ensures forall l :: |old(place)| <= l < |place| ==> !place[l].Flying?
      ensures if id in old(byID) then byID == old(byID) && place == old(place)
              else if HookCount(h) > 0
              then id in byID && |byID[id]| == HookCount(h) && byID == old(byID)[id := byID[id]]
              else byID == old(byID)
      ensures metaByID == if id in old(byID) || HookCount(h) > 0 then old(metaByID)[id := meta] else old(metaByID)
    {
      if id in byID {
        SetMeta(id, meta);
        return;
      }
      var links: seq<nat> := [];
      if h.wantOpenSSL {
        links := AttachOpenSSL(h);
      }
      if h.wantGo && h.go {
        var l := Open();
        links := links + [l];
      }
      if |links| == 0 {
        return;
      }
      RegisterAttach(id, meta, links);
    }

    /** Collects the links of every entry that matches, entry by entry, each link once. */
    method LinksOf(id: string) returns (toClose: seq<nat>, removed: set<string>)
      requires Valid()
      ensures forall k :: k in removed <==> k in byID && IdsMatch(k, id)
      ensures NoDup(toClose)
      ensures forall l :: l in toClose <==> 0 <= l < |place| && place[l].Held? && place[l].id in removed
    {
      toClose, removed := [], {};
      var ids := byID.Keys;
      while ids != {}
        invariant ids <= byID.Keys
        invariant forall k :: k in removed <==> k in byID.Keys - ids && IdsMatch(k, id)
        invariant NoDup(toClose)
        invariant forall l :: l in toClose <==> 0 <= l < |place| && place[l].Held? && place[l].id in removed
      {
        var k :| k in ids;
        ids := ids - {k};
        if IdsMatch(k, id) {
          assert forall l :: l in byID[k] <==> 0 <= l < |place| && place[l].Held? && place[l].id == k;
          toClose, removed := toClose + byID[k], removed + {k};
        }
      }
    }

    /** Takes the matching entries out of both maps; their links are the caller's to close. */
    method Take(id: string) returns (toClose: seq<nat>)
      requires Valid()
      modifies `byID, `metaByID, `place
      ensures Valid() && NoDup(toClose) && |place| == |old(place)|
      ensures byID == map k | k in old(byID) && !IdsMatch(k, id) :: old(byID)[k]
      ensures metaByID == map k | k in old(metaByID) && !IdsMatch(k, id) :: old(metaByID)[k]
      ensures forall l :: l in toClose <==> 0 <= l < |place| && old(place[l]).Held? && IdsMatch(old(place[l]).id, id)
      ensures forall l :: 0 <= l < |place| ==> place[l] == if l in toClose then Flying else old(place[l])
    {
      hide IdsMatch;
      var removed;
      toClose, removed := LinksOf(id);
      byID, metaByID := byID - removed, metaByID - removed;
      place := Release(place, removed);
    }

    /** Removes exactly the entries whose ids match, and closes exactly their links. */
    method DetachContainer(id: string)
      requires Valid()
      modifies this
      ensures Valid() && |place| == |old(place)|
      ensures byID == map k | k in old(byID) && !IdsMatch(k, id) :: old(byID)[k]
      ensures metaByID == map k | k in old(metaByID) && !IdsMatch(k, id) :: old(metaByID)[k]
      ensures forall l :: 0 <= l < |place| ==>
                place[l] == if old(place[l]).Held? && IdsMatch(old(place[l]).id, id) then Closed else old(place[l])
    {
      hide IdsMatch, Valid;
      var toClose := Take(id);
      assert forall i :: 0 <= i < |toClose| ==> toClose[i] in toClose;
      CloseLinks(toClose);
    }

    /** Empties the table; when no attach is in progress, every link ever opened has then been
        closed exactly once. */
    method DetachAll()
      requires Valid()
      modifies this
      ensures Valid() && byID == map[] && |place| == |old(place)|
      ensures forall l :: 0 <= l < |place| ==> place[l] == if old(place[l]).Held? then Closed else old(place[l])
      ensures (forall l :: 0 <= l < |place| ==> !old(place[l]).Flying?) ==>
                forall l :: 0 <= l < |closes| ==> closes[l] == 1
    {
      var ids := byID.Keys;
      while ids != {}
        invariant Valid() && |place| == |old(place)| && byID.Keys <= ids
        invariant forall l :: 0 <= l < |place| ==>
                    place[l] == old(place[l]) || (old(place[l]).Held? && place[l].Closed?)
      {
        var k :| k in ids;
        ids := ids - {k};
        MatchEquivalence(k, k, k);
        DetachContainer(k);
      }
    }

    /** Kubernetes: attaches under this id unless an entry for the same container exists. */
    method AttachByContainerID(id: string, meta: Meta, pidFound: bool, h: Hooks)
      requires Valid() && Separated()
      modifies this
      ensures Valid() && Separated() && old(place) <= place
      ensures forall l :: |old(place)| <= l < |place| ==> !place[l].Flying?
      ensures forall k :: k in old(byID) && IdsMatch(k, id) ==>
                byID == old(byID) && place == old(place) && metaByID == old(metaByID)[k := meta]
      ensures (forall k :: k in old(byID) ==> !IdsMatch(k, id)) ==>
                if pidFound && HookCount(h) > 0
                then id in byID && |byID[id]| == HookCount(h) && byID == old(byID)[id := byID[id]]
                     && metaByID == old(metaByID)[id := meta]
                else byID == old(byID) && metaByID == old(metaByID)
    {
      hide IdsMatch, HookCount;
      forall k
        ensures IdsMatch(k, id) <==> IdsMatch(id, k)
        ensures IdsMatch(id, id)
      {
        MatchEquivalence(k, id, k);
        MatchEquivalence(id, k, id);
      }
      if id in byID {
        SetMeta(id, meta);
        return;
      }
      if k :| k in byID && IdsMatch(k, id) {
        forall j | j in byID && IdsMatch(j, id)
          ensures j == k
        {
          MatchEquivalence(j, id, k);
        }
        SetMeta(k, meta);
        return;
      }
      if !pidFound {
        return;
      }
      AttachUprobes(id, meta, h);
    }

    /** Detaches every listed container, empty ids apart. */
    method DetachNamed(cids: seq<string>)
      requires Valid()
      modifies this
      ensures Valid() && byID.Keys <= old(byID).Keys && OnlyClosed(old(place), place)
      ensures forall k :: k in old(byID) ==> (k in byID <==> !NamedBy(k, cids))
      ensures forall k :: k in byID ==> byID[k] == old(byID)[k] && k in old(metaByID) && metaByID[k] == old(metaByID)[k]
    {
      hide IdsMatch;
      var i := 0;
      while i < |cids|
        invariant 0 <= i <= |cids|
        invariant Valid() && byID.Keys <= old(byID).Keys && OnlyClosed(old(place), place)
        invariant forall k :: k in old(byID) ==> (k in byID <==> !NamedBy(k, cids[..i]))
        invariant forall k :: k in byID ==>
                    byID[k] == old(byID)[k] && k in old(metaByID) && metaByID[k] == old(metaByID)[k]
      {
        NamedByNext(cids, i);
        if cids[i] != "" {
          DetachContainer(cids[i]);
        }
        i := i + 1;
      }
      assert cids[..i] == cids;
    }

    lemma {:induction false} SameKeys()
      requires Valid()
      ensures byID.Keys == metaByID.Keys
    {
    }

    /** The ids stored for a pod. */
    method PodIds(podName: string, podNamespace: string) returns (ids: set<string>)
      requires Valid()
      ensures forall k :: k in ids <==>
                k in byID && k in metaByID && metaByID[k].podName == podName && metaByID[k].podNamespace == podNamespace
    {
      ids := set k | k in metaByID && OfPod(metaByID[k], podName, podNamespace);
    }

    /** Kubernetes: removes exactly the entries for the pod's containers, found by id or by pod. */
    method DetachPodContainers(cids: seq<string>, podName: string, podNamespace: string)
      requires Valid() && Separated()
      modifies this
      ensures Valid() && Separated() && byID.Keys <= old(byID).Keys && OnlyClosed(old(place), place)
      ensures forall k :: k in old(byID) && k in old(metaByID) ==>
                (k in byID <==>
                  !NamedBy(k, cids)
                  && !(old(metaByID)[k].podName == podName && old(metaByID)[k].podNamespace == podNamespace))
      ensures forall k :: k in byID ==> byID[k] == old(byID)[k] && k in old(metaByID) && metaByID[k] == old(metaByID)[k]
    {
      hide IdsMatch, Valid;
      SameKeys();
      DetachNamed(cids);
      label found:
      SameKeys();
      var ids := PodIds(podName, podNamespace);
      ghost var todo := ids;
      while ids != {}
        invariant Valid() && Separated() && ids <= todo
        invariant byID.Keys <= old@found(byID).Keys && OnlyClosed(old(place), place)
        invariant forall k :: k in old@found(byID) ==> (k in byID <==> k !in todo - ids)
        invariant byID.Keys == metaByID.Keys
        invariant forall k :: k in byID ==>
                    byID[k] == old(byID)[k] && k in old(metaByID) && metaByID[k] == old(metaByID)[k]
      {
        var k :| k in ids;
        ids := ids - {k};
        MatchEquivalence(k, k, k);
        DetachContainer(k);
      }
    }

    /** The container a process belongs to: one its cgroup names, if the cgroup can be read and names
        any, else any attached one. Only the metadata map ever decides. */
    method LookupTarget(cgroup: Option<string>) returns (target: Option<(string, Meta)>)
      requires Valid()
      ensures target.None? <==> byID == map[]
      ensures target.Some? ==>
                target.value.0 in byID && target.value.0 in metaByID && target.value.1 == metaByID[target.value.0]
      ensures cgroup.Some? && (exists id :: id in byID && NamedIn(ToLower(cgroup.value), id)) ==>
                target.Some? && NamedIn(ToLower(cgroup.value), target.value.0)
    {
      if cgroup.Some? {
        var s := ToLower(cgroup.value);
        if id :| id in metaByID && NamedIn(s, id) {
          return Some((id, metaByID[id]));
        }
        if id :| id in byID && NamedIn(s, id) {
          assert false;
        }
      }
      if id :| id in metaByID {
        return Some((id, metaByID[id]));
      }
      if id :| id in byID {
        assert false;
      }
      return None;
    }
  }
}
