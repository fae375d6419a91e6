// The self-contained parts of the 2014-04-24 Aladin Lite bundle (distrib/2014-04-24/aladin.js):
// `Strings.trim` and the `Tokenizer`, the circular `TileBuffer`, the `Downloader` queue, the
// `Utils.LRUCache`, tile urls, unique layer names, box selection of sources, and the
// coordinate frame names.

module DistribAladin {
  import opened Wrappers
  import opened JsStrings

  // ---------------------------------------------------------------------------------------
  // Strings.trim
  // ---------------------------------------------------------------------------------------

  /** s without its leading occurrences of c. */
  function StripStart(s: string, c: char): (r: string)
    ensures |r| <= |s|
  {
    if s != [] && s[0] == c then StripStart(s[1..], c) else s
  }

  /** s without its trailing occurrences of c. */
  function StripEnd(s: string, c: char): (r: string)
    ensures |r| <= |s|
  {
    if s != [] && s[|s| - 1] == c then StripEnd(s[..|s| - 1], c) else s
  }

  /** StripStart cuts off exactly the leading c's. */
  lemma {:induction false} StripStartSpec(s: string, c: char)
    ensures var r := StripStart(s, c);
      r == s[|s| - |r|..] && (r == [] || r[0] != c)
      && forall i | 0 <= i < |s| - |r| :: s[i] == c
  {
    if s != [] && s[0] == c {
      StripStartSpec(s[1..], c);
    }
  }

  /** StripEnd cuts off exactly the trailing c's. */
  lemma {:induction false} StripEndSpec(s: string, c: char)
    ensures var r := StripEnd(s, c);
      r == s[..|r|] && (r == [] || r[|r| - 1] != c)
      && forall i | |r| <= i < |s| :: s[i] == c
  {
    if s != [] && s[|s| - 1] == c {
      StripEndSpec(s[..|s| - 1], c);
    }
  }

  /** What `Strings.trim(s, c)` promises: s without the occurrences of c at either end. */
  function Trimmed(s: string, c: char): string
  {
    StripEnd(StripStart(s, c), c)
  }

  /** A trimmed string neither starts nor ends with c, and is s with only c's cut off at
      its two ends. */
  lemma TrimmedSpec(s: string, c: char)
    ensures var r := Trimmed(s, c);
      (r == [] || (r[0] != c && r[|r| - 1] != c))
      && exists a, b | 0 <= a <= b <= |s| :: r == s[a..b]
           && (forall i | 0 <= i < a :: s[i] == c) && (forall i | b <= i < |s| :: s[i] == c)
  {
    var m := StripStart(s, c);
    var r := StripEnd(m, c);
    StripStartSpec(s, c);
    StripEndSpec(m, c);
    var a := |s| - |m|;
    var b := a + |r|;
    assert r == s[a..b];
    forall i | b <= i < |s|
      ensures s[i] == c
    {
      assert s[i] == m[i - a];
    }
  }

  /** The first loop of `Strings.trim` and of `nextToken`: the position of the first character other than c from
      `from` on. */
  method SkipSeparators(t: string, c: char, from: nat) returns (p0: nat)
    requires from <= |t|
    ensures from <= p0 <= |t| && (p0 == |t| || t[p0] != c)
    ensures StripStart(t[p0..], c) == StripStart(t[from..], c)
  {
    p0 := from;
    while p0 < |t| && t[p0] == c
      invariant from <= p0 <= |t|
      invariant StripStart(t[p0..], c) == StripStart(t[from..], c)
    {
      assert t[p0..][1..] == t[p0 + 1..];
      p0 := p0 + 1;
    }
  }

  /** `Strings.trim`: two index loops find the first and the last character other than c. */
  method Trim(str: string, c: char) returns (r: string)
    ensures r == Trimmed(str, c)
  {
    var p0 := SkipSeparators(str, c, 0);
    assert str[0..] == str;
    if p0 == |str| {
      return "";
    }
    var p1 := BackOverSeparators(str, c, p0);
    r := str[p0..p1 + 1];
  }

  /** The second loop of `Strings.trim`: the last character other than c, at or after a
      position p0 that holds one. */
  method BackOverSeparators(str: string, c: char, p0: nat) returns (p1: nat)
    requires p0 < |str| && str[p0] != c
    ensures p0 <= p1 < |str| && str[p0..p1 + 1] == StripEnd(str[p0..], c)
  {
    p1 := |str| - 1;
    assert str[p0..p1 + 1] == str[p0..];
    while p1 > p0 && str[p1] == c
      invariant p0 <= p1 < |str|
      invariant StripEnd(str[p0..p1 + 1], c) == StripEnd(str[p0..], c)
    {
      assert str[p0..p1 + 1][..p1 - p0] == str[p0..p1];
      p1 := p1 - 1;
    }
  }

  // ---------------------------------------------------------------------------------------
  // Tokenizer
  // ---------------------------------------------------------------------------------------

  /** The run of characters other than sep at the start of s. */
  function Run(s: string, sep: char): (t: string)
    ensures |t| <= |s|
  {
    if s == [] || s[0] == sep then [] else [s[0]] + Run(s[1..], sep)
  }

  /** The run is a prefix of s free of sep, and stops at the end or at a sep. */
  lemma {:induction false} RunSpec(s: string, sep: char)
    ensures var t := Run(s, sep);
      t == s[..|t|] && (forall i | 0 <= i < |t| :: t[i] != sep) && (|t| == |s| || s[|t|] == sep)
  {
    if s != [] && s[0] != sep {
      RunSpec(s[1..], sep);
    }
  }

  /** The tokens a Tokenizer returns from the text s that is left: each call skips the
      separators, then takes the run up to the next one. */
  function Tokens(s: string, sep: char): seq<string>
    decreases |s|
  {
    if s == [] then []
    else
      var rest := StripStart(s, sep);
      var t := Run(rest, sep);
      [t] + Tokens(rest[|t|..], sep)
  }

  /** Once a text no longer ends with its separator, its tokens are non-empty and free of
      separators. */
  lemma {:induction false} TokensSpec(s: string, sep: char)
    requires s == [] || s[|s| - 1] != sep
    ensures forall k | 0 <= k < |Tokens(s, sep)| ::
      Tokens(s, sep)[k] != [] && sep !in Tokens(s, sep)[k]
  {
    if s != [] {
      var rest := StripStart(s, sep);
      var t := Run(rest, sep);
      StripStartSpec(s, sep);
      RunSpec(rest, sep);
      assert rest != [];
      assert rest[|rest| - 1] == s[|s| - 1];
      TokensSpec(rest[|t|..], sep);
    }
  }

  /** What `nextToken` reads from position pos once its loops stop at p0 (past the
      separators) and p1 (past the token): the first remaining token, then the rest. */
  lemma NextTokenSplits(text: string, sep: char, pos: nat, p0: nat, p1: nat)
    requires pos <= p0 <= p1 <= |text|
    requires text == [] || text[|text| - 1] != sep
    requires StripStart(text[p0..], sep) == StripStart(text[pos..], sep)
    requires p0 == |text| || text[p0] != sep
    requires Run(text[p0..], sep) == text[p0..p1] + Run(text[p1..], sep)
    requires p1 == |text| || text[p1] == sep
    ensures pos < |text| ==> Tokens(text[pos..], sep) == [text[p0..p1]] + Tokens(text[p1..], sep)
    ensures pos < |text| ==> pos < p1
  {
    if pos < |text| {
      var s, rest, token, after := text[pos..], text[p0..], text[p0..p1], text[p1..];
      StripStartSpec(s, sep);
      assert StripStart(rest, sep) == rest;
      assert p0 < |text|;
      assert Run(after, sep) == [];
      assert Run(rest, sep) == token;
      SliceOfSlice(text, p0, p1);
      assert Tokens(s, sep) == [token] + Tokens(rest[|token|..], sep);
      assert |token| == p1 - p0 && rest[|token|..] == after;
    }
  }

  lemma SliceOfSlice(s: string, i: nat, j: nat)
    requires i <= j <= |s|
    ensures s[i..][j - i..] == s[j..]
  {
  }

  /** The second loop of `nextToken`: the end of the run of characters other than c that
      starts at p0. */
  method ReadRun(t: string, c: char, p0: nat) returns (p1: nat)
    requires p0 <= |t|
    ensures p0 <= p1 <= |t| && (p1 == |t| || t[p1] == c)
    ensures Run(t[p0..], c) == t[p0..p1] + Run(t[p1..], c)
  {
    p1 := p0;
    while p1 < |t| && t[p1] != c
      invariant p0 <= p1 <= |t|
      invariant Run(t[p0..], c) == t[p0..p1] + Run(t[p1..], c)
    {
      assert t[p1..][1..] == t[p1 + 1..];
      p1 := p1 + 1;
    }
  }

  /** `Tokenizer`: the trimmed text, the separator and the reading position. */
  class Tokenizer {
    var text: string
    var sep: char
    var pos: nat

    /** The text holds no trailing separator and the position is inside it. */
    predicate Valid()
      reads this
    {
      pos <= |text| && (text == [] || text[|text| - 1] != sep)
    }

    /** The tokens still to come. */
    function Remaining(): seq<string>
      reads this
      requires pos <= |text|
    {
      Tokens(text[pos..], sep)
    }

    constructor(str: string, sep: char)
      ensures text == Trimmed(str, sep) && this.sep == sep && pos == 0 && Valid()
    {
      var t := Trim(str, sep);
      StripEndSpec(StripStart(str, sep), sep);
      text, this.sep, pos := t, sep, 0;
    }

    function HasMore(): (r: bool)
      reads this
      requires Valid()
      ensures r <==> Remaining() != []
    {
      pos < |text|
    }

    /** `nextToken`: skip the separators, then read up to the next one. */
    method NextToken() returns (token: string)
      requires Valid()
      modifies this`pos
      ensures Valid()
      ensures old(Remaining()) == if old(HasMore()) then [token] + Remaining() else []
      ensures old(HasMore()) ==> pos > old(pos)
      ensures !old(HasMore()) ==> token == [] && pos == old(pos)
    {
      var t, c := text, sep;
      var p0 := SkipSeparators(t, c, pos);
      var p1 := ReadRun(t, c, p0);
      NextTokenSplits(t, c, pos, p0, p1);
      pos := p1;
      token := text[p0..p1];
    }
  }

  // ---------------------------------------------------------------------------------------
  // TileBuffer
  // ---------------------------------------------------------------------------------------

  /** `NB_MAX_TILES`: the number of tiles the buffer recycles. */
  const NB_MAX_TILES: nat := 800

  /** The urls held by some slot. */
  function HeldUrls(slots: seq<Option<string>>): (r: set<string>)
    ensures |r| <= |slots|
  {
    if slots == [] then {}
    else
      var init := HeldUrls(slots[..|slots| - 1]);
      var last := slots[|slots| - 1];
      if last.Some? then init + {last.value} else init
  }

  lemma {:induction false} HeldUrlsSpec(slots: seq<Option<string>>, i: nat)
    requires i < |slots| && slots[i].Some?
    ensures slots[i].value in HeldUrls(slots)
  {
    if i < |slots| - 1 {
      HeldUrlsSpec(slots[..|slots| - 1], i);
    }
  }

  /** The map from url to slot agrees with the slots, both ways. */
  predicate Indexed(tilesMap: map<string, nat>, slots: seq<Option<string>>)
  {
    (forall u | u in tilesMap :: tilesMap[u] < |slots| && slots[tilesMap[u]] == Some(u))
    && (forall i | 0 <= i < |slots| && slots[i].Some? ::
          slots[i].value in tilesMap && tilesMap[slots[i].value] == i)
  }

  /** An indexed buffer never holds more tiles than it has slots. */
  lemma IndexedBound(tilesMap: map<string, nat>, slots: seq<Option<string>>)
    requires Indexed(tilesMap, slots)
    ensures |tilesMap| <= |slots|
  {
    forall u | u in tilesMap
      ensures u in HeldUrls(slots)
    {
      HeldUrlsSpec(slots, tilesMap[u]);
    }
    assert tilesMap.Keys <= HeldUrls(slots);
    SubsetCard(tilesMap.Keys, HeldUrls(slots));
  }

  lemma SubsetCard<T>(a: set<T>, b: set<T>)
    requires a <= b
    ensures |a| <= |b|
  {
    assert b == a + (b - a);
  }

  /** The map after the slot p, holding url `evicted` or nothing, is given to url. */
  function Reassigned(tilesMap: map<string, nat>, evicted: Option<string>, url: string, p: nat)
    : map<string, nat>
  {
    (if evicted.Some? then tilesMap - {evicted.value} else tilesMap)[url := p]
  }

  /** Giving slot p to a url not yet held keeps the map and the slots in agreement. */
  lemma ReassignedIndexed(tilesMap: map<string, nat>, slots: seq<Option<string>>, url: string,
                          p: nat)
    requires Indexed(tilesMap, slots) && p < |slots| && url !in tilesMap
    ensures Indexed(Reassigned(tilesMap, slots[p], url, p), slots[p := Some(url)])
  {
  }

  /** `TileBuffer`: `NB_MAX_TILES` tiles reused in turn, each known by its url. The tiles'
      images are not modelled: a slot holds the url of its tile, or None before first use. */
  class TileBuffer {
    var pointer: nat
    var tilesMap: map<string, nat>
    const tilesArray: array<Option<string>>

    ghost predicate Valid()
      reads this, tilesArray
    {
      tilesArray.Length == NB_MAX_TILES && pointer < NB_MAX_TILES
      && Indexed(tilesMap, tilesArray[..])
    }

    constructor()
      ensures Valid() && fresh(tilesArray) && pointer == 0 && tilesMap == map[]
      ensures forall i | 0 <= i < tilesArray.Length :: tilesArray[i] == None
    {
      pointer := 0;
      tilesMap := map[];
      tilesArray := new Option<string>[NB_MAX_TILES](_ => None);
    }

    /** `getTile`: the slot of the tile with that url, if any. */
    function GetTile(url: string): (r: Option<nat>)
      reads this, tilesArray
      requires Valid()
      ensures r.Some? <==> Some(url) in tilesArray[..]
      ensures r.Some? ==> r.value < tilesArray.Length && tilesArray[r.value] == Some(url)
    {
      if url in tilesMap then Some(tilesMap[url]) else None
    }

    /** `addTile`: None for a url already held; otherwise the tile under the pointer is
        given the url, the url it held before is forgotten, and the pointer moves on,
        wrapping at the end. */
    method AddTile(url: string) returns (r: Option<nat>)
      requires Valid()
      modifies this`pointer, this`tilesMap, tilesArray
      ensures Valid()
      ensures old(url in tilesMap) ==> r == None && unchanged(this, tilesArray)
      ensures !old(url in tilesMap) ==>
        r == Some(old(pointer))
        && tilesArray[..] == old(tilesArray[..])[old(pointer) := Some(url)]
        && tilesMap == Reassigned(old(tilesMap), old(tilesArray[pointer]), url, old(pointer))
        && pointer == (old(pointer) + 1) % NB_MAX_TILES
    {
      if url in tilesMap {
        return None;
      }
      var curTile := tilesArray[pointer];
      if curTile.Some? {
        tilesMap := tilesMap - {curTile.value};
      }
      ReassignedIndexed(old(tilesMap), tilesArray[..], url, pointer);
      tilesArray[pointer] := Some(url);
      tilesMap := tilesMap[url := pointer];
      r := Some(pointer);
      pointer := pointer + 1;
      if pointer >= NB_MAX_TILES {
        pointer := 0;
      }
    }
  }

  // ---------------------------------------------------------------------------------------
  // Downloader
  // ---------------------------------------------------------------------------------------

  /** `NB_MAX_SIMULTANEOUS_DL`: the most downloads running at once. */
  const NB_MAX_SIMULTANEOUS_DL: nat := 4

  /** A queued download: the url and whether to ask for it with CORS. */
  datatype Request = Request(url: string, cors: bool)

  function QueueUrls(queue: seq<Request>): set<string>
  {
    if queue == [] then {} else {queue[0].url} + QueueUrls(queue[1..])
  }

  predicate DistinctUrls(queue: seq<Request>)
  {
    forall i, j | 0 <= i < j < |queue| :: queue[i].url != queue[j].url
  }

  /** The url sets agree: `urlsInQueue` holds the urls queued and those being downloaded,
      none twice, and `nbDownloads` counts the downloads running, at most four. */
  predicate Consistent(nbDownloads: int, queue: seq<Request>, urlsInQueue: set<string>,
                       active: set<string>)
  {
    nbDownloads == |active| <= NB_MAX_SIMULTANEOUS_DL
    && DistinctUrls(queue) && QueueUrls(queue) !! active
    && urlsInQueue == QueueUrls(queue) + active
  }

  /** The downloader's bookkeeping: consistent, and the queue waits only while four
      downloads run. */
  predicate Bookkept(nbDownloads: int, queue: seq<Request>, urlsInQueue: set<string>,
                     active: set<string>)
  {
    Consistent(nbDownloads, queue, urlsInQueue, active)
    && (queue == [] || nbDownloads == NB_MAX_SIMULTANEOUS_DL)
  }

  lemma QueueUrlsAppend(started: seq<Request>, r: Request)
    ensures QueueUrls(started + [r]) == QueueUrls(started) + {r.url}
  {
    if started != [] {
      assert (started + [r])[1..] == started[1..] + [r];
      QueueUrlsAppend(started[1..], r);
    }
  }

  /** Starting the head of the queue keeps the bookkeeping consistent. */
  lemma StartHead(nb: int, queue: seq<Request>, urls: set<string>, active: set<string>)
    requires Consistent(nb, queue, urls, active) && queue != [] && nb < NB_MAX_SIMULTANEOUS_DL
    ensures Consistent(nb + 1, queue[1..], urls, active + {queue[0].url})
  {
    var q := queue[1..];
    assert DistinctUrls(q) by {
      forall i, j | 0 <= i < j < |q| ensures q[i].url != q[j].url {
        assert q[i] == queue[i + 1] && q[j] == queue[j + 1];
      }
    }
    assert queue[0].url !in QueueUrls(q) by {
      forall k | 0 <= k < |q| ensures q[k].url != queue[0].url {
        assert q[k] == queue[k + 1];
      }
      QueueUrlsLacks(q, queue[0].url);
    }
  }

  lemma MoveHead(started: seq<Request>, queue: seq<Request>)
    requires queue != []
    ensures (started + [queue[0]]) + queue[1..] == started + queue
  {
    assert queue == [queue[0]] + queue[1..];
  }

  /** A url no request of the queue has is not among the queue's urls. */
  lemma QueueUrlsLacks(queue: seq<Request>, u: string)
    requires forall k | 0 <= k < |queue| :: queue[k].url != u
    ensures u !in QueueUrls(queue)
  {
    if queue != [] {
      assert forall k | 0 <= k < |queue| - 1 :: queue[1..][k] == queue[k + 1];
      QueueUrlsLacks(queue[1..], u);
    }
  }

  /** `Downloader`: the queue of downloads waiting, the urls queued or downloading, and the
      number of downloads running. The image objects and the view's redraw are not
      modelled; `active`, the urls being downloaded, is bookkeeping of the model only. */
  class Downloader {
    var nbDownloads: int
    var dlQueue: seq<Request>
    var urlsInQueue: set<string>
    ghost var active: set<string>

    ghost predicate Valid()
      reads this
    {
      Bookkept(nbDownloads, dlQueue, urlsInQueue, active)
    }

    constructor()
      ensures Valid() && nbDownloads == 0 && dlQueue == [] && urlsInQueue == {} && active == {}
    {
      nbDownloads, dlQueue, urlsInQueue, active := 0, [], {}, {};
    }

    /** `requestDownload`: a url already queued or downloading is ignored; otherwise it is
        queued and `tryDownload` runs. `started` are the downloads that began. */
    method RequestDownload(url: string, cors: bool) returns (started: seq<Request>)
      requires Valid()
      modifies this
      ensures Valid()
      ensures url in old(urlsInQueue) ==> started == [] && unchanged(this)
      ensures url !in old(urlsInQueue) ==>
        started + dlQueue == old(dlQueue) + [Request(url, cors)]
        && nbDownloads == old(nbDownloads) + |started|
        && urlsInQueue == old(urlsInQueue) + {url}
    {
      if url in urlsInQueue {
        return [];
      }
      EnqueueConsistent(nbDownloads, dlQueue, urlsInQueue, active, Request(url, cors));
      dlQueue := dlQueue + [Request(url, cors)];
      urlsInQueue := urlsInQueue + {url};
      started := TryDownload();
    }

    /** `tryDownload`: start the queued downloads in order while fewer than four run. */
    method TryDownload() returns (started: seq<Request>)
      requires Consistent(nbDownloads, dlQueue, urlsInQueue, active)
      modifies this`nbDownloads, this`dlQueue, this`active
      ensures Valid()
      ensures started + dlQueue == old(dlQueue)
      ensures nbDownloads == old(nbDownloads) + |started|
    {
      started := [];
      var queue, nb := dlQueue, nbDownloads;
      ghost var running, urls := active, urlsInQueue;
      while queue != [] && nb < NB_MAX_SIMULTANEOUS_DL
        invariant Consistent(nb, queue, urls, running)
        invariant started + queue == old(dlQueue)
        invariant nb == old(nbDownloads) + |started|
        decreases |queue|
      {
        StartHead(nb, queue, urls, running);
        MoveHead(started, queue);
        running := running + {queue[0].url};
        started := started + [queue[0]];
        queue := queue[1..];
        nb := nb + 1;
      }
      dlQueue, nbDownloads, active := queue, nb, running;
    }

    /** `completeDownload` of a running download: its url is forgotten, one download fewer
        runs, and the queue is tried again. `redraw` is whether the view is asked to
        redraw. */
    method CompleteDownload(url: string, success: bool) returns (redraw: bool, started: seq<Request>)
      requires Valid() && url in active
      modifies this
      ensures Valid()
      ensures redraw == success
      ensures started + dlQueue == old(dlQueue)
      ensures nbDownloads == old(nbDownloads) - 1 + |started|
      ensures urlsInQueue == old(urlsInQueue) - {url}
      ensures |started| == if old(dlQueue) == [] then 0 else 1
    {
      urlsInQueue := urlsInQueue - {url};
      active := active - {url};
      nbDownloads := nbDownloads - 1;
      redraw := success;
      started := TryDownload();
    }
  }

  /** Queuing a url that is neither queued nor downloading keeps the bookkeeping
      consistent. */
  lemma EnqueueConsistent(nb: int, queue: seq<Request>, urls: set<string>, active: set<string>,
                          r: Request)
    requires Consistent(nb, queue, urls, active) && r.url !in urls
    ensures Consistent(nb, queue + [r], urls + {r.url}, active)
  {
    QueueUrlsAppend(queue, r);
    var q := queue + [r];
    forall i, j | 0 <= i < j < |q| ensures q[i].url != q[j].url {
      if j == |queue| {
        assert q[i] == queue[i];
        QueueUrlsHas(queue, i);
      } else {
        assert q[i] == queue[i] && q[j] == queue[j];
      }
    }
  }

  lemma QueueUrlsHas(queue: seq<Request>, i: nat)
    requires i < |queue|
    ensures queue[i].url in QueueUrls(queue)
  {
    if i > 0 {
      QueueUrlsHas(queue[1..], i - 1);
    }
  }

  // ---------------------------------------------------------------------------------------
  // LRUCache
  // ---------------------------------------------------------------------------------------

  /** The capacity of a cache created without one. */
  const DEFAULT_CACHE_SIZE: nat := 1024

  /** A cache's fields: the keys in the order `set` keeps them, the items and the expiry
      stamps by key, the count `size` and the capacity. */
  datatype CacheState<V> = CacheState(keys: seq<string>, items: map<string, V>,
                                      expires: map<string, int>, size: int, maxsize: nat)

  /** The comparator of `set`'s sort says a comes before b: both have an expiry and a's is
      later. A missing expiry compares equal to anything, as `undefined` does. */
  predicate Later(expires: map<string, int>, a: string, b: string)
  {
    a in expires && b in expires && expires[a] > expires[b]
  }

  /** One step of a stable insertion sort by descending expiry: x goes after every element
      it does not come before. */
  function InsertByExpiry(expires: map<string, int>, x: string, s: seq<string>): (r: seq<string>)
    ensures |r| == |s| + 1
  {
    if s == [] then [x]
    else if Later(expires, x, s[|s| - 1]) then
      InsertByExpiry(expires, x, s[..|s| - 1]) + [s[|s| - 1]]
    else s + [x]
  }

  /** `keys.sort(...)` in `set`: the keys by descending expiry, ties kept in order. */
  function SortByExpiry(expires: map<string, int>, keys: seq<string>): (r: seq<string>)
    ensures |r| == |keys|
  {
    if keys == [] then []
    else InsertByExpiry(expires, keys[|keys| - 1], SortByExpiry(expires, keys[..|keys| - 1]))
  }

  lemma {:induction false} InsertByExpiryPermutes(expires: map<string, int>, x: string,
                                                  s: seq<string>)
    ensures multiset(InsertByExpiry(expires, x, s)) == multiset(s) + multiset{x}
  {
    if s != [] {
      var init, last := s[..|s| - 1], s[|s| - 1];
      assert s == init + [last];
      InsertByExpiryPermutes(expires, x, init);
    }
  }

  /** The sort only reorders the keys. */
  lemma {:induction false} SortByExpiryPermutes(expires: map<string, int>, keys: seq<string>)
    ensures multiset(SortByExpiry(expires, keys)) == multiset(keys)
  {
    if keys != [] {
      var init := keys[..|keys| - 1];
      assert keys == init + [keys[|keys| - 1]];
      SortByExpiryPermutes(expires, init);
      InsertByExpiryPermutes(expires, keys[|keys| - 1], SortByExpiry(expires, init));
    }
  }

  /** Every key of s has an expiry of at least b. */
  predicate ExpireFrom(expires: map<string, int>, s: seq<string>, b: int)
  {
    forall i | 0 <= i < |s| :: s[i] in expires && expires[s[i]] >= b
  }

  /** Expiries never increase along s. */
  predicate Descending(expires: map<string, int>, s: seq<string>)
  {
    forall i, j | 0 <= i < j < |s| :: s[i] in expires && s[j] in expires
                                        && expires[s[i]] >= expires[s[j]]
  }

  lemma {:induction false} InsertByExpiryFrom(expires: map<string, int>, x: string,
                                              s: seq<string>, b: int)
    requires ExpireFrom(expires, s, b) && x in expires && expires[x] >= b
    ensures ExpireFrom(expires, InsertByExpiry(expires, x, s), b)
  {
    if s != [] && Later(expires, x, s[|s| - 1]) {
      InsertByExpiryFrom(expires, x, s[..|s| - 1], b);
    }
  }

  lemma {:induction false} InsertByExpiryDescending(expires: map<string, int>, x: string,
                                                    s: seq<string>)
    requires x in expires && Descending(expires, s) && (s != [] ==> s[0] in expires)
    ensures Descending(expires, InsertByExpiry(expires, x, s))
  {
    if s != [] {
      var init, last := s[..|s| - 1], s[|s| - 1];
      assert last in expires;
      if Later(expires, x, last) {
        InsertByExpiryDescending(expires, x, init);
        assert ExpireFrom(expires, init, expires[last]);
        InsertByExpiryFrom(expires, x, init, expires[last]);
      } else {
        assert ExpireFrom(expires, s, expires[x]);
      }
    }
  }

  /** Sorting keys that all have an expiry puts them in descending order. */
  lemma {:induction false} SortByExpiryDescending(expires: map<string, int>, keys: seq<string>)
    requires forall i | 0 <= i < |keys| :: keys[i] in expires
    ensures Descending(expires, SortByExpiry(expires, keys))
  {
    if keys != [] {
      var init := keys[..|keys| - 1];
      SortByExpiryDescending(expires, init);
      var sorted := SortByExpiry(expires, init);
      if sorted != [] {
        SortByExpiryPermutes(expires, init);
        assert sorted[0] in multiset(init);
      }
      InsertByExpiryDescending(expires, keys[|keys| - 1], sorted);
    }
  }

  /** The fields of a cache `set` keeps consistent: every key listed once, with an item and
      an expiry, `size` counting them, within the capacity. */
  predicate WellFormed<V>(c: CacheState<V>)
  {
    c.maxsize >= 1 && c.items.Keys == c.expires.Keys
    && multiset(c.keys) == multiset(c.items.Keys)
    && c.size == |c.keys| <= c.maxsize
  }

  /** A well-formed cache never holds more items than its capacity. */
  lemma WellFormedBound<V>(c: CacheState<V>)
    requires WellFormed(c)
    ensures |c.items| == c.size <= c.maxsize
  {
    assert |multiset(c.keys)| == |c.keys|;
    assert |multiset(c.items.Keys)| == |c.items.Keys|;
  }

  /** The key a full cache evicts: the last after the sort. */
  function Evicted<V>(c: CacheState<V>): string
    requires 1 <= c.size == |c.keys|
  {
    SortByExpiry(c.expires, c.keys)[c.size - 1]
  }

  /** The key evicted from a well-formed cache is cached and has the earliest expiry. */
  lemma EvictedOldest<V>(c: CacheState<V>)
    requires WellFormed(c) && c.size >= 1
    ensures Evicted(c) in c.items
    ensures forall k | k in c.items :: c.expires[Evicted(c)] <= c.expires[k]
  {
    var sorted := SortByExpiry(c.expires, c.keys);
    SortByExpiryPermutes(c.expires, c.keys);
    assert forall i | 0 <= i < |c.keys| :: c.keys[i] in multiset(c.items.Keys);
    SortByExpiryDescending(c.expires, c.keys);
    assert sorted[c.size - 1] in multiset(c.keys);
    forall k | k in c.items ensures c.expires[Evicted(c)] <= c.expires[k] {
      assert k in multiset(sorted);
      var j :| 0 <= j < |sorted| && sorted[j] == k;
    }
  }

  /** `set` as written: when the cache is full, the keys are sorted by descending expiry and
      the last one is evicted; then key is stored at position `size`, whether or not it is
      already cached. */
  function SetAsWritten<V>(c: CacheState<V>, key: string, value: V, now: int): (r: CacheState<V>)
    requires c.maxsize >= 1 && c.size == |c.keys|
    ensures r.maxsize == c.maxsize && r.size == |r.keys| && r.size <= c.size + 1
  {
    if c.size >= c.maxsize then
      var evicted := Evicted(c);
      CacheState(SortByExpiry(c.expires, c.keys)[..c.size - 1] + [key],
                 (c.items - {evicted})[key := value], (c.expires - {evicted})[key := now],
                 c.size, c.maxsize)
    else
      CacheState(c.keys + [key], c.items[key := value], c.expires[key := now], c.size + 1,
                 c.maxsize)
  }

  /** Setting a cached key again lists it twice: with a capacity of 2, setting "a" twice and
      then "b" evicts "a" and leaves a cache of size 2 that holds one item under a key list
      naming "a". */
  lemma SetAsWrittenDuplicates()
    ensures var c0: CacheState<int> := CacheState([], map[], map[], 0, 2);
            var c1 := SetAsWritten(c0, "a", 1, 1);
            var c2 := SetAsWritten(c1, "a", 2, 2);
            var c3 := SetAsWritten(c2, "b", 3, 3);
            c2.keys == ["a", "a"] && c2.size == 2 && |c2.items| == 1
            && c3.keys == ["a", "b"] && c3.size == 2 && c3.items == map["b" := 3]
            && !WellFormed(c2)
  {
    var c0: CacheState<int> := CacheState([], map[], map[], 0, 2);
    var c1 := SetAsWritten(c0, "a", 1, 1);
    var c2 := SetAsWritten(c1, "a", 2, 2);
    assert c2.keys == ["a", "a"];
    assert SortByExpiry(c2.expires, c2.keys) == ["a", "a"];
    assert multiset(c2.keys)["a"] == 2;
  }

  /** `set` as intended: a cached key gets the new value and expiry in place; a new key is
      added as written. */
  function SetFixed<V>(c: CacheState<V>, key: string, value: V, now: int): (r: CacheState<V>)
    requires c.maxsize >= 1 && c.size == |c.keys|
    ensures r.maxsize == c.maxsize
  {
    if key in c.items then
      c.(items := c.items[key := value], expires := c.expires[key := now])
    else SetAsWritten(c, key, value, now)
  }

  /** The intended `set` keeps the cache well formed, so within its capacity: the key is
      then cached with the value and the time, and at most one other key, the one
      `Evicted` names, is dropped, only when the key is new and the cache full. */
  lemma SetFixedSpec<V>(c: CacheState<V>, key: string, value: V, now: int)
    requires WellFormed(c)
    ensures var r := SetFixed(c, key, value, now);
            WellFormed(r) && |r.items| <= c.maxsize && r.expires[key] == now
            && r.items == if key !in c.items && c.size >= c.maxsize
                          then (c.items - {Evicted(c)})[key := value]
                          else c.items[key := value]
  {
    var r := SetFixed(c, key, value, now);
    if key in c.items {
      SetFixedCached(c, key, value, now);
    } else if c.size >= c.maxsize {
      SetFixedFull(c, key, value, now);
    } else {
      SetFixedRoom(c, key, value, now);
    }
    WellFormedBound(r);
  }

  lemma SetFixedCached<V>(c: CacheState<V>, key: string, value: V, now: int)
    requires WellFormed(c) && key in c.items
    ensures var r := SetFixed(c, key, value, now);
            WellFormed(r) && r.expires[key] == now && r.items == c.items[key := value]
  {
    var r := SetFixed(c, key, value, now);
    assert r.items.Keys == c.items.Keys;
  }

  lemma SetFixedRoom<V>(c: CacheState<V>, key: string, value: V, now: int)
    requires WellFormed(c) && key !in c.items && c.size < c.maxsize
    ensures var r := SetFixed(c, key, value, now);
            WellFormed(r) && r.expires[key] == now && r.items == c.items[key := value]
  {
    AddRoom(c, key);
  }

  lemma SetFixedFull<V>(c: CacheState<V>, key: string, value: V, now: int)
    requires WellFormed(c) && key !in c.items && c.size >= c.maxsize
    ensures var r := SetFixed(c, key, value, now);
            WellFormed(r) && r.expires[key] == now
            && r.items == (c.items - {Evicted(c)})[key := value]
  {
    var r := SetFixed(c, key, value, now);
    EvictFull(c, key);
    assert r.items.Keys == (c.items.Keys - {Evicted(c)}) + {key};
    assert r.expires.Keys == r.items.Keys;
  }

  lemma AddRoom<V>(c: CacheState<V>, key: string)
    requires WellFormed(c) && key !in c.items
    ensures multiset(c.keys + [key]) == multiset(c.items.Keys + {key})
  {
    MultisetOfSetAdd(c.items.Keys, key);
  }

  lemma MultisetOfSetAdd(s: set<string>, x: string)
    requires x !in s
    ensures multiset(s + {x}) == multiset(s) + multiset{x}
  {
    forall y ensures multiset(s + {x})[y] == (multiset(s) + multiset{x})[y] {
    }
  }

  lemma MultisetOfSetRemove(s: set<string>, x: string)
    requires x in s
    ensures multiset(s - {x}) == multiset(s) - multiset{x}
  {
    forall y ensures multiset(s - {x})[y] == (multiset(s) - multiset{x})[y] {
    }
  }

  lemma MultisetOfInit(s: seq<string>)
    requires s != []
    ensures multiset(s[..|s| - 1]) == multiset(s) - multiset{s[|s| - 1]}
  {
    assert s == s[..|s| - 1] + [s[|s| - 1]];
  }

  /** Evicting the oldest key of a full cache and listing a new key keeps the keys and the
      items in step. */
  lemma EvictFull<V>(c: CacheState<V>, key: string)
    requires WellFormed(c) && key !in c.items && c.size >= c.maxsize
    ensures var n := c.size - 1; var evicted := Evicted(c);
            multiset(SortByExpiry(c.expires, c.keys)[..n] + [key])
              == multiset((c.items.Keys - {evicted}) + {key})
  {
    var sorted := SortByExpiry(c.expires, c.keys);
    var n := c.size - 1;
    var evicted := Evicted(c);
    var rest := c.items.Keys - {evicted};
    assert multiset(sorted[..n]) == multiset(rest) by {
      EvictedOldest(c);
      SortByExpiryPermutes(c.expires, c.keys);
      MultisetOfInit(sorted);
      MultisetOfSetRemove(c.items.Keys, evicted);
    }
    MultisetOfSetAdd(rest, key);
  }

  /** What `set` as written keeps of a cache, duplicate keys allowed: every item has an
      expiry and is listed, `size` counts the list, within the capacity. */
  predicate CacheConsistent<V>(c: CacheState<V>)
  {
    c.maxsize >= 1 && c.items.Keys == c.expires.Keys
    && (forall k | k in c.items :: k in c.keys)
    && c.size == |c.keys| <= c.maxsize
  }

  /** A well-formed cache is consistent. */
  lemma WellFormedCacheConsistent<V>(c: CacheState<V>)
    requires WellFormed(c)
    ensures CacheConsistent(c)
  {
    forall k | k in c.items ensures k in c.keys {
      assert k in multiset(c.items.Keys);
    }
  }

  /** A sequence names at most as many distinct elements as it is long. */
  lemma {:induction false} ListedWithin(s: seq<string>, keys: set<string>)
    requires forall k | k in keys :: k in s
    ensures |keys| <= |s|
  {
    if s != [] {
      var last := s[|s| - 1];
      var rest := keys - {last};
      forall k | k in rest ensures k in s[..|s| - 1] {
        var j :| 0 <= j < |s| && s[j] == k;
      }
      ListedWithin(s[..|s| - 1], rest);
    } else {
      assert forall k | k in keys :: k in s;
      assert keys == {};
    }
  }

  /** A consistent cache never holds more items than its capacity. */
  lemma CacheConsistentBound<V>(c: CacheState<V>)
    requires CacheConsistent(c)
    ensures |c.items| <= c.size <= c.maxsize
  {
    ListedWithin(c.keys, c.items.Keys);
  }

  /** `set` as written keeps a cache consistent, so within its capacity, and the key is then
      cached with the value and the time. A full cache first loses the key `Evicted` names;
      no other item changes. */
  lemma SetAsWrittenSpec<V>(c: CacheState<V>, key: string, value: V, now: int)
    requires CacheConsistent(c)
    ensures var r := SetAsWritten(c, key, value, now);
            CacheConsistent(r) && |r.items| <= c.maxsize && r.expires[key] == now
            && r.keys[|r.keys| - 1] == key
            && r.items == if c.size >= c.maxsize then (c.items - {Evicted(c)})[key := value]
                          else c.items[key := value]
  {
    var r := SetAsWritten(c, key, value, now);
    if c.size >= c.maxsize {
      SetAsWrittenFull(c, key, value, now);
    }
    CacheConsistentBound(r);
  }

  /** Evicting from a full consistent cache keeps every remaining item listed. */
  lemma SetAsWrittenFull<V>(c: CacheState<V>, key: string, value: V, now: int)
    requires CacheConsistent(c) && c.size >= c.maxsize
    ensures CacheConsistent(SetAsWritten(c, key, value, now))
  {
    var r := SetAsWritten(c, key, value, now);
    var sorted := SortByExpiry(c.expires, c.keys);
    var n := c.size - 1;
    SortByExpiryPermutes(c.expires, c.keys);
    forall k | k in r.items ensures k in r.keys {
      if k != key {
        assert k in c.keys && k != sorted[n];
        assert k in multiset(sorted);
        var j :| 0 <= j < |sorted| && sorted[j] == k;
        assert sorted[..n][j] == k;
      }
    }
  }

  /** On a well-formed cache and a new key, `set` as written is `set` as intended. */
  lemma SetAsWrittenNewKey<V>(c: CacheState<V>, key: string, value: V, now: int)
    requires WellFormed(c) && key !in c.items
    ensures SetAsWritten(c, key, value, now) == SetFixed(c, key, value, now)
    ensures WellFormed(SetAsWritten(c, key, value, now))
  {
    SetFixedSpec(c, key, value, now);
  }

  /** `Utils.LRUCache` with `set` as written. Clock readings are passed in as `now`. */
  class LRUCache<V> {
    var keys: seq<string>
    var items: map<string, V>
    var expires: map<string, int>
    var size: int
    var maxsize: nat

    function State(): CacheState<V>
      reads this
    {
      CacheState(keys, items, expires, size, maxsize)
    }

    ghost predicate Valid()
      reads this
    {
      CacheConsistent(State())
    }

    /** `maxsize || 1024`: a capacity of 0 means the default. */
    constructor(capacity: nat)
      ensures Valid() && WellFormed(State())
      ensures State() == CacheState([], map[], map[], 0,
                                    if capacity == 0 then DEFAULT_CACHE_SIZE else capacity)
    {
      keys, items, expires, size := [], map[], map[], 0;
      maxsize := if capacity == 0 then DEFAULT_CACHE_SIZE else capacity;
    }

    /** `set`: a full cache sorts its keys by descending expiry and drops the last; then the
        key is listed at position `size`, even when it is already cached. */
    method Set(key: string, value: V, now: int)
      requires Valid()
      modifies this
      ensures State() == SetAsWritten(old(State()), key, value, now)
      ensures Valid()
    {
      ghost var c := State();
      var ks, its, exs, n := keys, items, expires, size;
      if n >= maxsize {
        ks := SortByExpiry(exs, ks);
        n := n - 1;
        its := its - {ks[n]};
        exs := exs - {ks[n]};
        ks := ks[..n];
      }
      keys, items, expires, size := ks + [key], its[key := value], exs[key := now], n + 1;
      assert State() == SetAsWritten(c, key, value, now);
      SetAsWrittenSpec(c, key, value, now);
    }

    /** `get`: the item of the key, if any; a hit renews its expiry. */
    method Get(key: string, now: int) returns (r: Option<V>)
      requires Valid()
      modifies this`expires
      ensures Valid()
      ensures r == (if key in items then Some(items[key]) else None)
      ensures expires == if key in items then old(expires)[key := now] else old(expires)
    {
      if key in items {
        r := Some(items[key]);
        expires := expires[key := now];
      } else {
        r := None;
      }
    }
  }

  // ---------------------------------------------------------------------------------------
  // Tile urls
  // ---------------------------------------------------------------------------------------

  /** The `Dir` directory of a tile: npix rounded down to a multiple of 10000. */
  function DirIndex(npix: nat): (d: nat)
    ensures d % 10000 == 0 && d <= npix < d + 10000
  {
    (npix / 10000) * 10000
  }

  /** `getTileURL`: `<root>/Norder<norder>/Dir<dir>/Npix<npix>.<ext>`, with ext the image
      format of a survey or `tsv` for a progressive catalogue. */
  function TileUrl(root: string, norder: nat, npix: nat, ext: string): string
  {
    root + "/Norder" + (NatToString(norder) + ("/Dir" + (NatToString(DirIndex(npix))
      + ("/Npix" + (NatToString(npix) + ("." + ext))))))
  }

  /** Two digit strings followed by text that starts with a non-digit split the same way. */
  lemma DigitsPrefix(a: string, x: string, b: string, y: string)
    requires forall i | 0 <= i < |a| :: IsDigit(a[i])
    requires forall i | 0 <= i < |b| :: IsDigit(b[i])
    requires x != [] && !IsDigit(x[0]) && y != [] && !IsDigit(y[0])
    requires a + x == b + y
    ensures a == b && x == y
  {
    DigitsEndAt(a, x);
    DigitsEndAt(b, y);
    assert a == (a + x)[..|a|] && b == (b + y)[..|b|];
  }

  /** In a + x, the digits of a end where x starts. */
  lemma DigitsEndAt(a: string, x: string)
    requires forall i | 0 <= i < |a| :: IsDigit(a[i])
    requires x != [] && !IsDigit(x[0])
    ensures forall i | 0 <= i < |a| :: IsDigit((a + x)[i])
    ensures !IsDigit((a + x)[|a|])
  {
  }

  /** Different tiles of a survey have different urls. */
  lemma TileUrlInjective(root: string, n1: nat, p1: nat, n2: nat, p2: nat, ext: string)
    requires TileUrl(root, n1, p1, ext) == TileUrl(root, n2, p2, ext)
    ensures n1 == n2 && p1 == p2
  {
    var head := root + "/Norder";
    var tail1 := "/Dir" + (NatToString(DirIndex(p1)) + ("/Npix" + (NatToString(p1) + ("." + ext))));
    var tail2 := "/Dir" + (NatToString(DirIndex(p2)) + ("/Npix" + (NatToString(p2) + ("." + ext))));
    assert head + (NatToString(n1) + tail1) == head + (NatToString(n2) + tail2);
    assert NatToString(n1) + tail1 == NatToString(n2) + tail2 by {
      assert (head + (NatToString(n1) + tail1))[|head|..] == NatToString(n1) + tail1;
      assert (head + (NatToString(n2) + tail2))[|head|..] == NatToString(n2) + tail2;
    }
    DigitsPrefix(NatToString(n1), tail1, NatToString(n2), tail2);
    NatToStringInjective(n1, n2);
    var rest1 := "/Npix" + (NatToString(p1) + ("." + ext));
    var rest2 := "/Npix" + (NatToString(p2) + ("." + ext));
    assert NatToString(DirIndex(p1)) + rest1 == NatToString(DirIndex(p2)) + rest2 by {
      assert tail1[4..] == NatToString(DirIndex(p1)) + rest1;
      assert tail2[4..] == NatToString(DirIndex(p2)) + rest2;
    }
    DigitsPrefix(NatToString(DirIndex(p1)), rest1, NatToString(DirIndex(p2)), rest2);
    assert NatToString(p1) + ("." + ext) == NatToString(p2) + ("." + ext) by {
      assert rest1[5..] == NatToString(p1) + ("." + ext);
      assert rest2[5..] == NatToString(p2) + ("." + ext);
    }
    DigitsPrefix(NatToString(p1), "." + ext, NatToString(p2), "." + ext);
    NatToStringInjective(p1, p2);
  }

  // ---------------------------------------------------------------------------------------
  // Layer names
  // ---------------------------------------------------------------------------------------

  /** `name + '_' + k`. */
  function Suffixed(name: string, k: nat): string
  {
    name + ("_" + NatToString(k))
  }

  lemma SuffixedInjective(name: string, j: nat, k: nat)
    requires Suffixed(name, j) == Suffixed(name, k)
    ensures j == k
  {
    assert Suffixed(name, j)[|name| + 1..] == NatToString(j);
    assert Suffixed(name, k)[|name| + 1..] == NatToString(k);
    NatToStringInjective(j, k);
  }

  /** `layerNameExists`: whether a catalogue layer already has the name. */
  method LayerNameExists(names: seq<string>, name: string) returns (r: bool)
    ensures r <==> name in names
  {
    var k := 0;
    while k < |names|
      invariant 0 <= k <= |names| && name !in names[..k]
    {
      if name == names[k] {
        return true;
      }
      k := k + 1;
    }
    assert names[..k] == names;
    return false;
  }

  /** The names `name_1` to `name_n`. */
  function SuffixedUpTo(name: string, n: nat): (r: set<string>)
  {
    if n == 0 then {} else SuffixedUpTo(name, n - 1) + {Suffixed(name, n)}
  }

  lemma {:induction false} SuffixedUpToSize(name: string, n: nat)
    ensures |SuffixedUpTo(name, n)| == n
    ensures forall k | 1 <= k <= n :: Suffixed(name, k) in SuffixedUpTo(name, n)
  {
    if n > 0 {
      SuffixedUpToSize(name, n - 1);
      if Suffixed(name, n) in SuffixedUpTo(name, n - 1) {
        var k := SuffixedUpToIndex(name, n - 1, Suffixed(name, n));
        SuffixedInjective(name, k, n);
      }
    }
  }

  lemma {:induction false} SuffixedUpToIndex(name: string, n: nat, u: string) returns (k: nat)
    requires u in SuffixedUpTo(name, n)
    ensures 1 <= k <= n && u == Suffixed(name, k)
  {
    if u == Suffixed(name, n) {
      k := n;
    } else {
      k := SuffixedUpToIndex(name, n - 1, u);
    }
  }

  lemma {:induction false} ElementsBound(names: seq<string>)
    ensures |set u | u in names| <= |names|
  {
    if names != [] {
      var init := names[..|names| - 1];
      ElementsBound(init);
      assert (set u | u in names) == (set u | u in init) + {names[|names| - 1]};
    }
  }

  /** Among `name_1` to `name_{|names|+1}` one is not taken. */
  lemma FreeSuffix(names: seq<string>, name: string) returns (k: nat)
    ensures 1 <= k <= |names| + 1 && Suffixed(name, k) !in names
  {
    var n := |names| + 1;
    if forall j | 1 <= j <= n :: Suffixed(name, j) in names {
      SuffixedUpToSize(name, n);
      ElementsBound(names);
      forall u | u in SuffixedUpTo(name, n) ensures u in names {
        var j := SuffixedUpToIndex(name, n, u);
      }
      SubsetCard(SuffixedUpTo(name, n), set u | u in names);
      assert false;
    }
    k :| 1 <= k <= n && Suffixed(name, k) !in names;
  }

  /** `makeUniqLayerName`: the name itself if no catalogue layer has it, otherwise
      `name_k` for the least k that no layer has. */
  method MakeUniqLayerName(names: seq<string>, name: string) returns (r: string)
    ensures r !in names
    ensures name !in names ==> r == name
    ensures name in names ==> exists k :: k >= 1 && r == Suffixed(name, k)
                                          && forall j | 1 <= j < k :: Suffixed(name, j) in names
  {
    var exists_ := LayerNameExists(names, name);
    if !exists_ {
      return name;
    }
    ghost var free := FreeSuffix(names, name);
    var k := 1;
    while true
      invariant 1 <= k <= free
      invariant forall j | 1 <= j < k :: Suffixed(name, j) in names
      decreases free - k
    {
      var newName := name + "_" + NatToString(k);
      assert newName == Suffixed(name, k);
      exists_ := LayerNameExists(names, newName);
      if !exists_ {
        return newName;
      }
      k := k + 1;
    }
  }

  // ---------------------------------------------------------------------------------------
  // Objects in a box
  // ---------------------------------------------------------------------------------------

  /** A catalogue source as the view sees it: its pixel position, None where it is unset or
      not a number, and whether it is shown. */
  datatype Source = Source(x: Option<real>, y: Option<real>, isShowing: bool)

  /** A catalogue layer: whether it is shown, and its sources. */
  datatype CatalogLayer = CatalogLayer(isShowing: bool, sources: seq<Source>)

  /** A coordinate that is neither unset nor 0, the values for which `!s.x` is false. */
  predicate Truthy(v: Option<real>)
  {
    v.Some? && v.value != 0.0
  }

  /** The source is shown, has both coordinates, and lies in the box with corner (x, y)
      and non-negative extent (w, h), borders included. */
  predicate InBox(s: Source, x: real, y: real, w: real, h: real)
  {
    s.isShowing && Truthy(s.x) && Truthy(s.y)
    && x <= s.x.value <= x + w && y <= s.y.value <= y + h
  }

  /** A box given by a corner and signed extents, made to start at its lower corner. */
  function Normalized(x: real, y: real, w: real, h: real): (r: (real, real, real, real))
    ensures r.2 >= 0.0 && r.3 >= 0.0
    ensures r.0 == (if w < 0.0 then x + w else x) && r.1 == (if h < 0.0 then y + h else y)
    ensures r.0 + r.2 == (if w < 0.0 then x else x + w)
    ensures r.1 + r.3 == (if h < 0.0 then y else y + h)
  {
    (if w < 0.0 then x + w else x, if h < 0.0 then y + h else y,
     if w < 0.0 then -w else w, if h < 0.0 then -h else h)
  }

  /** The sources of one layer in the box, in order. */
  function SourcesInBox(sources: seq<Source>, x: real, y: real, w: real, h: real)
    : (r: seq<Source>)
    ensures forall s | s in r :: s in sources && InBox(s, x, y, w, h)
    ensures forall s | s in sources && InBox(s, x, y, w, h) :: s in r
  {
    if sources == [] then []
    else
      var init := SourcesInBox(sources[..|sources| - 1], x, y, w, h);
      var last := sources[|sources| - 1];
      assert sources == sources[..|sources| - 1] + [last];
      if InBox(last, x, y, w, h) then init + [last] else init
  }

  /** The sources of the shown layers in the box, layer by layer. */
  function ObjectsInBox(catalogs: seq<CatalogLayer>, x: real, y: real, w: real, h: real)
    : seq<Source>
  {
    if catalogs == [] then []
    else
      var last := catalogs[|catalogs| - 1];
      ObjectsInBox(catalogs[..|catalogs| - 1], x, y, w, h)
        + (if last.isShowing then SourcesInBox(last.sources, x, y, w, h) else [])
  }

  /** A source is reported exactly when a shown layer holds it and it is in the box. */
  lemma {:induction false} ObjectsInBoxMembers(catalogs: seq<CatalogLayer>, x: real, y: real,
                                               w: real, h: real, s: Source)
    ensures s in ObjectsInBox(catalogs, x, y, w, h) <==>
      InBox(s, x, y, w, h)
      && exists k | 0 <= k < |catalogs| :: catalogs[k].isShowing && s in catalogs[k].sources
  {
    if catalogs != [] {
      var init := catalogs[..|catalogs| - 1];
      ObjectsInBoxMembers(init, x, y, w, h, s);
      assert forall k | 0 <= k < |init| :: init[k] == catalogs[k];
    }
  }

  /** `getObjectsInBBox`: the box is normalised, then every shown source of every shown
      layer that lies in it is collected. */
  method ObjectsInBBox(catalogs: seq<CatalogLayer>, x0: real, y0: real, w0: real, h0: real)
    returns (objList: seq<Source>)
    ensures objList == ObjectsInBox(catalogs, Normalized(x0, y0, w0, h0).0,
                                    Normalized(x0, y0, w0, h0).1, Normalized(x0, y0, w0, h0).2,
                                    Normalized(x0, y0, w0, h0).3)
  {
    var x, y, w, h := x0, y0, w0, h0;
    if w < 0.0 {
      x := x + w;
      w := -w;
    }
    if h < 0.0 {
      y := y + h;
      h := -h;
    }
    objList := [];
    for k := 0 to |catalogs|
      invariant objList == ObjectsInBox(catalogs[..k], x, y, w, h)
    {
      assert catalogs[..k + 1][..k] == catalogs[..k];
      var cat := catalogs[k];
      if !cat.isShowing {
        continue;
      }
      var found := SourcesInBBox(cat.sources, x, y, w, h);
      objList := objList + found;
    }
    assert catalogs[..|catalogs|] == catalogs;
  }

  /** The inner loop of `getObjectsInBBox` over one layer's sources. */
  method SourcesInBBox(sources: seq<Source>, x: real, y: real, w: real, h: real)
    returns (found: seq<Source>)
    ensures found == SourcesInBox(sources, x, y, w, h)
  {
    found := [];
    for l := 0 to |sources|
      invariant found == SourcesInBox(sources[..l], x, y, w, h)
    {
      assert sources[..l + 1][..l] == sources[..l];
      var s := sources[l];
      if !s.isShowing || !Truthy(s.x) || !Truthy(s.y) {
        continue;
      }
      if s.x.value >= x && s.x.value <= x + w && s.y.value >= y && s.y.value <= y + h {
        found := found + [s];
      }
    }
    assert sources[..|sources|] == sources;
  }

  /** The box may be given from either end: the extents' signs do not change the result. */
  lemma OppositeCornerSameBox(x: real, y: real, w: real, h: real)
    ensures Normalized(x + w, y + h, -w, -h) == Normalized(x, y, w, h)
  {
  }

  // ---------------------------------------------------------------------------------------
  // CooFrameEnum.fromString
  // ---------------------------------------------------------------------------------------

  const J2000: string := "J2000"
  const GAL: string := "Galactic"

  /** A string that is neither null nor empty, the strings JavaScript counts as true. */
  predicate Given(s: Option<string>)
  {
    s.Some? && s.value != ""
  }

  /** `defaultValue ? defaultValue : null`. */
  function DefaultFrame(defaultValue: Option<string>): (r: Option<string>)
  {
    if Given(defaultValue) then defaultValue else None
  }

  /** `CooFrameEnum.fromString`: the frame a name designates, ignoring case and surrounding
      white space: J2000 for names starting with `j2000` or `icrs`, Galactic for those
      starting with `gal`; otherwise the default, or null. */
  function FrameFromString(str: Option<string>, defaultValue: Option<string>): (r: Option<string>)
    ensures r == Some(J2000) || r == Some(GAL) || r == DefaultFrame(defaultValue)
  {
    if !Given(str) then DefaultFrame(defaultValue)
    else FrameOfName(TrimWhiteSpace(LowerString(str.value)), defaultValue)
  }

  /** The frame a lower-cased, trimmed name designates. */
  function FrameOfName(t: string, defaultValue: Option<string>): (r: Option<string>)
  {
    if StartsWith(t, "j2000") || StartsWith(t, "icrs") then Some(J2000)
    else if StartsWith(t, "gal") then Some(GAL)
    else DefaultFrame(defaultValue)
  }

  lemma LowerIdempotent(s: string)
    ensures LowerString(LowerString(s)) == LowerString(s)
  {
  }

  /** The frame name is read case-insensitively. */
  lemma FrameFromStringIgnoresCase(s: string, defaultValue: Option<string>)
    ensures FrameFromString(Some(LowerString(s)), defaultValue)
            == FrameFromString(Some(s), defaultValue)
  {
    LowerIdempotent(s);
  }

  predicate AllWhiteSpace(s: string)
  {
    forall i | 0 <= i < |s| :: IsWhiteSpace(s[i])
  }

  lemma {:induction false} TrimStartOfPadded(w: string, s: string)
    requires AllWhiteSpace(w) && (s == [] || !IsWhiteSpace(s[0]))
    ensures TrimWhiteSpaceStart(w + s) == s
  {
    if w != [] {
      assert (w + s)[1..] == w[1..] + s;
      TrimStartOfPadded(w[1..], s);
    }
  }

  lemma {:induction false} TrimEndOfPadded(s: string, w: string)
    requires AllWhiteSpace(w) && (s == [] || !IsWhiteSpace(s[|s| - 1]))
    ensures TrimWhiteSpaceEnd(s + w) == s
  {
    if w != [] {
      var w' := w[..|w| - 1];
      assert (s + w)[..|s + w| - 1] == s + w';
      TrimEndOfPadded(s, w');
    } else {
      assert s + w == s;
    }
  }

  /** Lower-casing keeps white space and non-white space apart. */
  lemma LowerKeepsWhiteSpace(s: string)
    ensures forall i | 0 <= i < |s| :: IsWhiteSpace(LowerString(s)[i]) == IsWhiteSpace(s[i])
  {
  }

  /** Lower-casing and trimming a padded name gives the lower-cased name. */
  lemma TrimmedLowerPadded(pre: string, name: string, post: string)
    requires AllWhiteSpace(pre) && AllWhiteSpace(post)
    requires name != [] && !IsWhiteSpace(name[0]) && !IsWhiteSpace(name[|name| - 1])
    ensures TrimWhiteSpace(LowerString(pre + name + post)) == LowerString(name)
    ensures TrimWhiteSpace(LowerString(name)) == LowerString(name)
  {
    var lp, ln, lq := LowerString(pre), LowerString(name), LowerString(post);
    assert AllWhiteSpace(lp) by {
      LowerKeepsWhiteSpace(pre);
    }
    assert AllWhiteSpace(lq) by {
      LowerKeepsWhiteSpace(post);
    }
    assert !IsWhiteSpace(ln[0]) && !IsWhiteSpace(ln[|ln| - 1]) by {
      LowerKeepsWhiteSpace(name);
    }
    TrimmedPadded(lp, ln, lq);
    assert LowerString(pre + name + post) == lp + (ln + lq) by {
      ConcatAssoc(pre, name, post);
      LowerConcat(pre, name + post);
      LowerConcat(name, post);
    }
  }

  /** Trimming a padded text that starts and ends with non-white space gives the text. */
  lemma TrimmedPadded(pre: string, s: string, post: string)
    requires AllWhiteSpace(pre) && AllWhiteSpace(post)
    requires s != [] && !IsWhiteSpace(s[0]) && !IsWhiteSpace(s[|s| - 1])
    ensures TrimWhiteSpace(pre + (s + post)) == s
    ensures TrimWhiteSpace(s) == s
  {
    assert TrimWhiteSpaceStart(pre + (s + post)) == s + post by {
      TrimStartOfPadded(pre, s + post);
    }
    TrimEndOfPadded(s, post);
    assert TrimWhiteSpace(s) == s by {
      TrimStartOfPadded([], s);
      TrimEndOfPadded(s, []);
      assert [] + s == s && s + [] == s;
    }
  }

  /** White space around a frame name does not change the frame it designates. */
  lemma FrameFromStringIgnoresWhiteSpace(pre: string, name: string, post: string,
                                         defaultValue: Option<string>)
    requires AllWhiteSpace(pre) && AllWhiteSpace(post)
    requires name != [] && !IsWhiteSpace(name[0]) && !IsWhiteSpace(name[|name| - 1])
    ensures FrameFromString(Some(pre + name + post), defaultValue)
            == FrameFromString(Some(name), defaultValue)
  {
    TrimmedLowerPadded(pre, name, post);
    assert |pre + name + post| > 0;
    assert FrameFromString(Some(name), defaultValue)
           == FrameOfName(TrimWhiteSpace(LowerString(name)), defaultValue);
  }
}
