/**
 The lockfile session: what a run reads from the registries, checked against the hashes of the run
 before, and recorded for the run after.
*/
module Lockfile {
  import opened Text

  type Bytes = string

  /** What a registry says of a file: its content, or that it has none. */
  type Answer = Option<Bytes>

  datatype Mode = Off | Update | Refresh | Error

  datatype FileHash = Sha256(hex: string) | NotFound

  datatype FetchError = NetworkFailed | ChecksumMismatch | MissingChecksum

  type Hashes = map<string, FileHash>

  type Cache = Option<map<string, Bytes>>

  /** What stays fixed for a run. The hash function and the network are whatever they are. */
  datatype Env = Env(
    mode: Mode, previous: Hashes, network: string -> Result<Answer, FetchError>, sha: Bytes -> string)

  /** What a run keeps: the hashes to write, the repository cache, and what the network was asked. */
  datatype Session = Session(touched: Hashes, cache: Cache, asked: seq<string>)

  /** Local registries and `metadata.json` are neither checked nor recorded. */
  predicate PassesThrough(url: string) {
    var tail := "/metadata.json";
    "file://" <= url || "/" <= url || (|tail| <= |url| && url[|url| - |tail|..] == tail)
  }

  function HashOf(env: Env, answer: Answer): FileHash {
    match answer
    case None => NotFound
    case Some(bytes) => Sha256(env.sha(bytes))
  }

  function CachePut(cache: Cache, hex: string, bytes: Answer): Cache {
    if cache.None? || bytes.None? || hex in cache.value then cache
    else Some(cache.value[hex := bytes.value])
  }

  function Cached(cache: Cache, hex: string): Answer {
    if cache.Some? && hex in cache.value then Some(cache.value[hex]) else None
  }

  /** Whether an earlier run says what the file is; a refresh asks again for what was not found. */
  predicate Known(env: Env, url: string) {
    url in env.previous && (env.previous[url].Sha256? || env.mode != Refresh)
  }

  // ---------- One fetch ----------

  function FetchOnce(env: Env, s: Session, url: string): (Session, Result<Answer, FetchError>) {
    var asked := s.(asked := s.asked + [url]);
    if PassesThrough(url) then (asked, env.network(url))
    else if Known(env, url) then
      match env.previous[url]
      case NotFound => (s.(touched := s.touched[url := NotFound]), Ok(None))
      case Sha256(wanted) =>
        var cached := Cached(s.cache, wanted);
        var s' := if cached.Some? then s else asked;
        match if cached.Some? then Ok(cached) else env.network(url)
        case Err(e) => (s', Err(e))
        case Ok(fetched) =>
          if HashOf(env, fetched) != Sha256(wanted) then (s', Err(ChecksumMismatch))
          else (s'.(touched := s.touched[url := Sha256(wanted)], cache := CachePut(s.cache, wanted, fetched)),
                Ok(fetched))
    else if env.mode == Error then (s, Err(MissingChecksum))
    else
      match env.network(url)
      case Err(e) => (asked, Err(e))
      case Ok(fetched) =>
        (asked.(touched := s.touched[url := HashOf(env, fetched)],
                cache := if fetched.Some? then CachePut(s.cache, env.sha(fetched.value), fetched) else s.cache),
         Ok(fetched))
  }

  type Bodies = map<string, Answer>

  /** A fetcher asks once for each file. */
  function Fetch(env: Env, s: Session, bodies: Bodies, url: string): (Session, Bodies, Result<Answer, FetchError>) {
    if url in bodies then (s, bodies, Ok(bodies[url]))
    else
      var (s', r) := FetchOnce(env, s, url);
      (s', if r.Ok? then bodies[url := r.value] else bodies, r)
  }

  /** The session of a run, shared by its fetchers. */
  class LockSession {
    const env: Env
    var touched: Hashes
    var cache: Cache
    ghost var asked: seq<string>

    ghost function State(): Session
      reads this
    {
      Session(touched, cache, asked)
    }

    constructor (env: Env, cache: Cache)
      ensures this.env == env && State() == Session(map[], cache, [])
    {
      this.env := env;
      this.touched := map[];
      this.cache := cache;
      this.asked := [];
    }

    method Record(url: string, hash: FileHash)
      modifies this`touched
      ensures touched == old(touched)[url := hash]
    {
      touched := touched[url := hash];
    }

    /** Keeps the bytes under their hash, unless there are some already. */
    method PutInCache(hex: string, bytes: Answer)
      modifies this`cache
      ensures cache == CachePut(old(cache), hex, bytes)
    {
      if cache.Some? && bytes.Some? && hex !in cache.value {
        cache := Some(cache.value[hex := bytes.value]);
      }
    }

    method Ask(url: string) returns (r: Result<Answer, FetchError>)
      modifies this`asked
      ensures asked == old(asked) + [url] && r == env.network(url)
    {
      asked := asked + [url];
      r := env.network(url);
    }

    /** The hashes the run ends up with: what it read, and nothing else. */
    method Finish() returns (hashes: Hashes)
      ensures hashes == State().touched
    {
      hashes := touched;
    }
  }

  /** One registry's fetcher. */
  class LockedFetcher {
    const session: LockSession
    var bodies: Bodies

    constructor (session: LockSession)
      ensures this.session == session && bodies == map[]
    {
      this.session := session;
      this.bodies := map[];
    }

    method FetchFile(url: string) returns (r: Result<Answer, FetchError>)
      modifies this`bodies, session
      ensures (session.State(), bodies, r) == Fetch(session.env, old(session.State()), old(bodies), url)
    {
      if url in bodies {
        return Ok(bodies[url]);
      }
      r := FetchFileOnce(url);
      if r.Ok? {
        bodies := bodies[url := r.value];
      }
    }

    method FetchFileOnce(url: string) returns (r: Result<Answer, FetchError>)
      modifies session
      ensures (session.State(), r) == FetchOnce(session.env, old(session.State()), url)
    {
      var env := session.env;
      if PassesThrough(url) {
        r := session.Ask(url);
        return;
      }
      if url in env.previous {
        match env.previous[url] {
          case NotFound =>
            if env.mode != Refresh {
              session.Record(url, NotFound);
              return Ok(None);
            }
          case Sha256(wanted) =>
            var cached := Cached(session.cache, wanted);
            var fetched := Ok(cached);
            if cached.None? {
              fetched := session.Ask(url);
              if fetched.Err? {
                return fetched;
              }
            }
            if HashOf(env, fetched.value) != Sha256(wanted) {
              return Err(ChecksumMismatch);
            }
            session.Record(url, Sha256(wanted));
            session.PutInCache(wanted, fetched.value);
            return fetched;
        }
      }
      if env.mode == Error {
        return Err(MissingChecksum);
      }
      r := session.Ask(url);
      if r.Err? {
        return;
      }
      session.Record(url, HashOf(env, r.value));
      if r.value.Some? {
        session.PutInCache(env.sha(r.value.value), r.value);
      }
    }
  }

  // ---------- Runs ----------

  /** A file asked of one of the run's fetchers. */
  datatype Request = Request(fetcher: nat, url: string)

  datatype World = World(session: Session, fetchers: map<nat, Bodies>)

  function BodiesOf(w: World, fetcher: nat): Bodies {
    if fetcher in w.fetchers then w.fetchers[fetcher] else map[]
  }

  function Step(env: Env, w: World, q: Request): (World, Result<Answer, FetchError>) {
    var (s, bodies, r) := Fetch(env, w.session, BodiesOf(w, q.fetcher), q.url);
    (World(s, w.fetchers[q.fetcher := bodies]), r)
  }

  /** All the requests in turn, a failed one changing nothing for the next. */
  function Run(env: Env, cache: Cache, requests: seq<Request>): (r: (World, seq<Result<Answer, FetchError>>))
    ensures |r.1| == |requests|
  {
    if requests == [] then (World(Session(map[], cache, []), map[]), [])
    else
      var (w, answers) := Run(env, cache, requests[..|requests| - 1]);
      var (w', answer) := Step(env, w, requests[|requests| - 1]);
      (w', answers + [answer])
  }

  /** A request the lockfile has to do with, answered. */
  predicate Locked(requests: seq<Request>, answers: seq<Result<Answer, FetchError>>, i: nat)
    requires |answers| == |requests|
  {
    i < |requests| && !PassesThrough(requests[i].url) && answers[i].Ok?
  }

  /** What an answer may be: the recorded content, the recorded absence, or what the network says. */
  predicate Proper(env: Env, url: string, answer: Answer) {
    if Known(env, url) then HashOf(env, answer) == env.previous[url] else env.network(url) == Ok(answer)
  }

  /** `touched` holds exactly the locked answers, under the hash of what was returned. */
  ghost predicate Recorded(env: Env, touched: Hashes, requests: seq<Request>, answers: seq<Result<Answer, FetchError>>)
    requires |answers| == |requests|
  {
    && (forall i: nat | Locked(requests, answers, i) ::
          requests[i].url in touched && touched[requests[i].url] == HashOf(env, answers[i].value))
    && forall url <- touched :: exists i: nat :: Locked(requests, answers, i) && requests[i].url == url
  }

  /** No answer disagrees with what the lockfile said, or else with the network. */
  ghost predicate AllProper(env: Env, requests: seq<Request>, answers: seq<Result<Answer, FetchError>>)
    requires |answers| == |requests|
  {
    forall i: nat | Locked(requests, answers, i) :: Proper(env, requests[i].url, answers[i].value)
  }

  /** What a fetcher remembers was an answer. */
  ghost predicate Remembered(
    fetchers: map<nat, Bodies>, requests: seq<Request>, answers: seq<Result<Answer, FetchError>>)
    requires |answers| == |requests|
  {
    forall f <- fetchers :: forall url <- fetchers[f] ::
      exists i: nat :: i < |requests| && requests[i].url == url && answers[i] == Ok(fetchers[f][url])
  }

  /** In error mode the network is asked only for content whose hash is recorded. */
  predicate AskedOnlyRecorded(env: Env, asked: seq<string>) {
    env.mode == Error ==> forall i | 0 <= i < |asked| ::
      PassesThrough(asked[i]) || (asked[i] in env.previous && env.previous[asked[i]].Sha256?)
  }

  lemma FetchOnceFacts(env: Env, s: Session, url: string)
    ensures var (s', r) := FetchOnce(env, s, url);
            && s'.touched == (if r.Ok? && !PassesThrough(url) then s.touched[url := HashOf(env, r.value)] else s.touched)
            && (r.Ok? && !PassesThrough(url) ==> Proper(env, url, r.value))
            && (AskedOnlyRecorded(env, s.asked) ==> AskedOnlyRecorded(env, s'.asked))
  {
  }

  lemma AnswerRecorded(
    env: Env, touched: Hashes, requests: seq<Request>, answers: seq<Result<Answer, FetchError>>,
    q: Request, r: Result<Answer, FetchError>)
    requires |answers| == |requests|
    requires Recorded(env, touched, requests, answers) && AllProper(env, requests, answers)
    requires r.Ok? && !PassesThrough(q.url) ==> Proper(env, q.url, r.value)
    ensures AllProper(env, requests + [q], answers + [r])
    ensures Recorded(env, if r.Ok? && !PassesThrough(q.url) then touched[q.url := HashOf(env, r.value)] else touched,
                     requests + [q], answers + [r])
  {
    var requests', answers' := requests + [q], answers + [r];
    var touched' := if r.Ok? && !PassesThrough(q.url) then touched[q.url := HashOf(env, r.value)] else touched;
    forall i: nat | Locked(requests', answers', i)
      ensures Proper(env, requests'[i].url, answers'[i].value)
      ensures requests'[i].url in touched' && touched'[requests'[i].url] == HashOf(env, answers'[i].value)
    {
      if i < |requests| { assert Locked(requests, answers, i); }
    }
    forall url <- touched' ensures exists i: nat :: Locked(requests', answers', i) && requests'[i].url == url {
      if url in touched {
        var i: nat :| Locked(requests, answers, i) && requests[i].url == url;
        assert Locked(requests', answers', i);
      } else {
        assert Locked(requests', answers', |requests|);
      }
    }
  }

  lemma AnswerRemembered(
    fetchers: map<nat, Bodies>, requests: seq<Request>, answers: seq<Result<Answer, FetchError>>,
    q: Request, bodies: Bodies, r: Result<Answer, FetchError>)
    requires |answers| == |requests| && Remembered(fetchers, requests, answers)
    requires forall url <- bodies ::
               (q.fetcher in fetchers && url in fetchers[q.fetcher] && fetchers[q.fetcher][url] == bodies[url])
               || (url == q.url && r == Ok(bodies[url]))
    ensures Remembered(fetchers[q.fetcher := bodies], requests + [q], answers + [r])
  {
    var fetchers' := fetchers[q.fetcher := bodies];
    forall f <- fetchers', url | url in fetchers'[f]
      ensures exists i: nat ::
          i < |requests + [q]| && (requests + [q])[i].url == url && (answers + [r])[i] == Ok(fetchers'[f][url])
    {
      if f in fetchers && url in fetchers[f] && fetchers[f][url] == fetchers'[f][url] {
        var i: nat :| i < |requests| && requests[i].url == url && answers[i] == Ok(fetchers[f][url]);
        assert (requests + [q])[i] == requests[i] && (answers + [r])[i] == answers[i];
      } else {
        assert (requests + [q])[|requests|] == q && (answers + [r])[|requests|] == r;
      }
    }
  }

  /** What holds in every state a run can reach, whatever it asks and whatever fails. */
  lemma {:induction false} ReachedStates(env: Env, cache: Cache, requests: seq<Request>)
    ensures var (w, answers) := Run(env, cache, requests);
            && Recorded(env, w.session.touched, requests, answers)
            && AllProper(env, requests, answers)
            && Remembered(w.fetchers, requests, answers)
            && AskedOnlyRecorded(env, w.session.asked)
    decreases |requests|
  {
    if requests != [] {
      var before, q := requests[..|requests| - 1], requests[|requests| - 1];
      assert requests == before + [q];
      ReachedStates(env, cache, before);
      var (w, answers) := Run(env, cache, before);
      ReachedStep(env, w, before, answers, q);
    }
  }

  lemma ReachedStep(
    env: Env, w: World, requests: seq<Request>, answers: seq<Result<Answer, FetchError>>, q: Request)
    requires |answers| == |requests|
    requires Recorded(env, w.session.touched, requests, answers) && AllProper(env, requests, answers)
    requires Remembered(w.fetchers, requests, answers) && AskedOnlyRecorded(env, w.session.asked)
    ensures var (w', r) := Step(env, w, q);
            && Recorded(env, w'.session.touched, requests + [q], answers + [r])
            && AllProper(env, requests + [q], answers + [r])
            && Remembered(w'.fetchers, requests + [q], answers + [r])
            && AskedOnlyRecorded(env, w'.session.asked)
  {
    hide FetchOnce, Recorded, AllProper, Proper, HashOf, AskedOnlyRecorded, PassesThrough;
    var (w', r) := Step(env, w, q);
    var bodies := BodiesOf(w, q.fetcher);
    FetchOnceFacts(env, w.session, q.url);
    if q.url in bodies { RememberedIsRecorded(env, w, requests, answers, q); }
    AnswerRecorded(env, w.session.touched, requests, answers, q, r);
    AnswerRemembered(w.fetchers, requests, answers, q, w'.fetchers[q.fetcher], r);
  }

  lemma RememberedIsRecorded(
    env: Env, w: World, requests: seq<Request>, answers: seq<Result<Answer, FetchError>>, q: Request)
    requires |answers| == |requests|
    requires Recorded(env, w.session.touched, requests, answers) && AllProper(env, requests, answers)
    requires Remembered(w.fetchers, requests, answers) && q.url in BodiesOf(w, q.fetcher)
    ensures var answer := BodiesOf(w, q.fetcher)[q.url];
            !PassesThrough(q.url) ==>
              && Proper(env, q.url, answer)
              && w.session.touched[q.url := HashOf(env, answer)] == w.session.touched
  {
    var i: nat :| i < |requests| && requests[i].url == q.url && answers[i] == Ok(w.fetchers[q.fetcher][q.url]);
    if !PassesThrough(q.url) { assert Locked(requests, answers, i); }
  }

  // ---------- Replay ----------

  /** The run after: error mode, from the hashes the first run recorded. */
  function After(env: Env, hashes: Hashes): Env { env.(mode := Error, previous := hashes) }

  predicate AllAnswered(answers: seq<Result<Answer, FetchError>>) {
    forall i | 0 <= i < |answers| :: answers[i].Ok?
  }

  /** What the network serves unchecked is not contradicted by the cache, at this point of the run. */
  predicate FreshAgrees(env: Env, w: World, q: Request) {
    PassesThrough(q.url) || q.url in BodiesOf(w, q.fetcher) || Known(env, q.url)
    || match env.network(q.url)
       case Ok(Some(bytes)) => Cached(w.session.cache, env.sha(bytes)) in {None, Some(bytes)}
       case _ => true
  }

  /** So at every point of the run. */
  ghost predicate CacheAgrees(env: Env, cache: Cache, requests: seq<Request>) {
    forall i | 0 <= i < |requests| :: FreshAgrees(env, Run(env, cache, requests[..i]).0, requests[i])
  }

  lemma CacheAgreesSplit(env: Env, cache: Cache, requests: seq<Request>, q: Request)
    ensures CacheAgrees(env, cache, requests + [q])
       <==> CacheAgrees(env, cache, requests) && FreshAgrees(env, Run(env, cache, requests).0, q)
  {
    var all := requests + [q];
    assert all[..|requests|] == requests && all[|requests|] == q;
    forall i | 0 <= i < |requests| ensures all[..i] == requests[..i] && all[i] == requests[i] {
    }
    if CacheAgrees(env, cache, all) {
      forall i | 0 <= i < |requests| ensures FreshAgrees(env, Run(env, cache, requests[..i]).0, requests[i]) {
        assert FreshAgrees(env, Run(env, cache, all[..i]).0, all[i]);
      }
      assert FreshAgrees(env, Run(env, cache, all[..|requests|]).0, all[|requests|]);
    }
  }

  predicate SameWorld(a: World, b: World) {
    a.fetchers == b.fetchers && a.session.cache == b.session.cache && a.session.touched == b.session.touched
  }

  /** One step again: the same answer exactly when the cache agrees, and then the same state. */
  lemma ReplayStep(env: Env, hashes: Hashes, w: World, w2: World, q: Request)
    requires SameWorld(w, w2) && Step(env, w, q).1.Ok?
    requires !PassesThrough(q.url) ==>
               q.url in hashes && hashes[q.url] == HashOf(env, Step(env, w, q).1.value)
    ensures Step(After(env, hashes), w2, q).1 == Step(env, w, q).1 <==> FreshAgrees(env, w, q)
    ensures FreshAgrees(env, w, q) ==> SameWorld(Step(env, w, q).0, Step(After(env, hashes), w2, q).0)
  {
    hide PassesThrough;
  }

  lemma {:induction false} ReplayRun(env: Env, hashes: Hashes, cache: Cache, requests: seq<Request>)
    requires AllAnswered(Run(env, cache, requests).1)
    requires forall i: nat | Locked(requests, Run(env, cache, requests).1, i) ::
               && requests[i].url in hashes
               && hashes[requests[i].url] == HashOf(env, Run(env, cache, requests).1[i].value)
    ensures Run(After(env, hashes), cache, requests).1 == Run(env, cache, requests).1
       <==> CacheAgrees(env, cache, requests)
    ensures CacheAgrees(env, cache, requests)
        ==> SameWorld(Run(env, cache, requests).0, Run(After(env, hashes), cache, requests).0)
    decreases |requests|
  {
    hide Step, FreshAgrees, HashOf, PassesThrough;
    if requests != [] {
      var n := |requests| - 1;
      var before, q := requests[..n], requests[n];
      assert requests == before + [q];
      var (w, answers) := Run(env, cache, before);
      var (w2, answers2) := Run(After(env, hashes), cache, before);
      var all, all2 := Run(env, cache, requests).1, Run(After(env, hashes), cache, requests).1;
      assert all == answers + [Step(env, w, q).1] && all2 == answers2 + [Step(After(env, hashes), w2, q).1];
      forall i: nat | Locked(before, answers, i) ensures Locked(requests, all, i) && all[i] == answers[i] {
      }
      forall i | 0 <= i < n ensures answers[i].Ok? {
        assert answers[i] == all[i];
      }
      ReplayRun(env, hashes, cache, before);
      CacheAgreesSplit(env, cache, before, q);
      assert all[n] == Step(env, w, q).1 && all2[n] == Step(After(env, hashes), w2, q).1;
      if !PassesThrough(q.url) { assert Locked(requests, all, n); }
      if CacheAgrees(env, cache, before) { ReplayStep(env, hashes, w, w2, q); }
      assert all[..n] == answers && all2[..n] == answers2;
    }
  }

  /**
   A run all of whose requests were answered, run again in error mode from the hashes it recorded,
   with the same registry and the same cache at the start, gives the same answers exactly when no
   unchecked content contradicted the cache; and then it records the same hashes.
  */
  lemma Replay(env: Env, cache: Cache, requests: seq<Request>)
    requires AllAnswered(Run(env, cache, requests).1)
    ensures var (w, answers) := Run(env, cache, requests);
            var (w2, answers2) := Run(After(env, w.session.touched), cache, requests);
            && (answers2 == answers <==> CacheAgrees(env, cache, requests))
            && (CacheAgrees(env, cache, requests) ==> w2.session.touched == w.session.touched)
  {
    ReachedStates(env, cache, requests);
    ReplayRun(env, Run(env, cache, requests).0.session.touched, cache, requests);
  }

  // ---------- Case by case ----------

  lemma WhatPassesThrough(url: string)
    ensures PassesThrough(url)
       <==> exists rest :: url == "file://" + rest || url == "/" + rest || url == rest + "/metadata.json"
  {
    var tail := "/metadata.json";
    if "file://" <= url { assert url == "file://" + url[7..]; }
    if "/" <= url { assert url == "/" + url[1..]; }
    if |tail| <= |url| && url[|url| - |tail|..] == tail { assert url == url[..|url| - |tail|] + tail; }
    if rest :| url == "file://" + rest || url == "/" + rest || url == rest + tail {
      assert url == rest + tail ==> url[|url| - |tail|..] == tail;
    }
  }

  /** The network is asked, and its answer taken, and its hash recorded. */
  ghost predicate AsksNetwork(env: Env, s: Session, url: string, s': Session, r: Result<Answer, FetchError>) {
    && s'.asked == s.asked + [url] && r == env.network(url)
    && s'.touched == match r
                     case Ok(answer) =>
                       s.touched[url := if answer.Some? then Sha256(env.sha(answer.value)) else NotFound]
                     case Err(_) => s.touched
  }

  /** What is checked against a recorded hash: the cached bytes if there are some, else the network's. */
  ghost predicate Checks(
    env: Env, s: Session, url: string, wanted: string, s': Session, r: Result<Answer, FetchError>)
  {
    var cached := s.cache.Some? && wanted in s.cache.value;
    && s'.asked == (if cached then s.asked else s.asked + [url])
    && s'.touched == (if r.Ok? then s.touched[url := Sha256(wanted)] else s.touched)
    && r == (if !cached && env.network(url).Err? then env.network(url)
             else
               var answer := if cached then Some(s.cache.value[wanted]) else env.network(url).value;
               if answer.Some? && env.sha(answer.value) == wanted then Ok(answer) else Err(ChecksumMismatch))
  }

  /**
   What a fetch does, from the mode and the recorded hash: a file not found before is asked for again in
   refresh mode only, and a file without a hash is refused in error mode only.
  */
  lemma FetchByCases(env: Env, s: Session, bodies: Bodies, url: string)
    ensures var (s', bodies', r) := Fetch(env, s, bodies, url);
            if url in bodies then s' == s && bodies' == bodies && r == Ok(bodies[url])
            else
              && bodies' == (if r.Ok? then bodies[url := r.value] else bodies)
              && if PassesThrough(url) then s' == s.(asked := s.asked + [url]) && r == env.network(url)
                 else if url !in env.previous then
                   if env.mode == Error then s' == s && r == Err(MissingChecksum)
                   else AsksNetwork(env, s, url, s', r)
                 else
                   match env.previous[url]
                   case NotFound =>
                     if env.mode == Refresh then AsksNetwork(env, s, url, s', r)
                     else s' == s.(touched := s.touched[url := NotFound]) && r == Ok(None)
                   case Sha256(wanted) => Checks(env, s, url, wanted, s', r)
  {
    hide PassesThrough;
  }

  /** What the answer for a URL the lockfile has to do with may be, from the mode and the recorded hash alone. */
  ghost predicate AnswerIs(env: Env, asked: seq<string>, url: string, r: Result<Answer, FetchError>) {
    if url !in env.previous then
      if env.mode == Error then r == Err(MissingChecksum) else r == env.network(url) && url in asked
    else
      match env.previous[url]
      case NotFound => if env.mode == Refresh then r == env.network(url) && url in asked else r == Ok(None)
      case Sha256(wanted) => r.Ok? ==> r.value.Some? && env.sha(r.value.value) == wanted
  }

  /** Every answer so far, and every one a fetcher remembers, is as it should be. */
  ghost predicate AnswersAre(env: Env, w: World, requests: seq<Request>, answers: seq<Result<Answer, FetchError>>)
    requires |answers| == |requests|
  {
    && (forall i | 0 <= i < |requests| && !PassesThrough(requests[i].url) ::
          AnswerIs(env, w.session.asked, requests[i].url, answers[i]))
    && forall f <- w.fetchers, url | url in w.fetchers[f] && !PassesThrough(url) ::
         AnswerIs(env, w.session.asked, url, Ok(w.fetchers[f][url]))
  }

  lemma StepAnswers(env: Env, w: World, requests: seq<Request>, answers: seq<Result<Answer, FetchError>>, q: Request)
    requires |answers| == |requests| && AnswersAre(env, w, requests, answers)
    ensures var (w', r) := Step(env, w, q); AnswersAre(env, w', requests + [q], answers + [r])
  {
    var (w', r) := Step(env, w, q);
    FetchByCases(env, w.session, BodiesOf(w, q.fetcher), q.url);
    hide PassesThrough, Fetch;
    assert w.session.asked <= w'.session.asked;
    forall url, a | AnswerIs(env, w.session.asked, url, a) ensures AnswerIs(env, w'.session.asked, url, a) {
    }
    assert !PassesThrough(q.url) ==> AnswerIs(env, w'.session.asked, q.url, r);
    hide AnswerIs;
  }

  /** In every run each answer is what the mode and the recorded hash ask for; in refresh mode the network's, where nothing was found. */
  lemma {:induction false} RunAnswers(env: Env, cache: Cache, requests: seq<Request>)
    ensures AnswersAre(env, Run(env, cache, requests).0, requests, Run(env, cache, requests).1)
    decreases |requests|
  {
    hide Step, AnswersAre;
    if requests == [] {
      NothingAnswered(env, cache);
    } else {
      var before, q := requests[..|requests| - 1], requests[|requests| - 1];
      RunAnswers(env, cache, before);
      var (w, answers) := Run(env, cache, before);
      StepAnswers(env, w, before, answers, q);
      assert before + [q] == requests;
    }
  }

  lemma NothingAnswered(env: Env, cache: Cache)
    ensures AnswersAre(env, World(Session(map[], cache, []), map[]), [], [])
  {
  }

  // ---------- The cache ----------

  /** Nothing that was there is lost or replaced, and what is new is filed under its own hash. */
  ghost predicate Grown(env: Env, before: Cache, after: Cache) {
    && before.Some? == after.Some?
    && (before.Some? ==> forall hex <- before.value :: hex in after.value && after.value[hex] == before.value[hex])
    && (after.Some? ==> forall hex <- after.value | hex !in before.value :: env.sha(after.value[hex]) == hex)
  }

  lemma PutGrows(env: Env, cache: Cache, bytes: Answer)
    requires bytes.Some?
    ensures Grown(env, cache, CachePut(cache, env.sha(bytes.value), bytes))
  {
  }

  lemma StepGrows(env: Env, w: World, q: Request)
    ensures Grown(env, w.session.cache, Step(env, w, q).0.session.cache)
  {
    hide PassesThrough, Cached;
    var cache, cache' := w.session.cache, Step(env, w, q).0.session.cache;
    if cache' != cache {
      var answer := Step(env, w, q).1;
      assert answer.Ok? && answer.value.Some? && cache' == CachePut(cache, env.sha(answer.value.value), answer.value);
      PutGrows(env, cache, answer.value);
    }
  }

  /**
   Whatever is asked and whatever fails, a run loses and replaces nothing in the cache, and files what it
   adds under its hash.
  */
  lemma {:induction false} CacheOnlyGrows(env: Env, cache: Cache, requests: seq<Request>)
    ensures Grown(env, cache, Run(env, cache, requests).0.session.cache)
    decreases |requests|
  {
    hide Step;
    if requests != [] {
      var before := requests[..|requests| - 1];
      CacheOnlyGrows(env, cache, before);
      StepGrows(env, Run(env, cache, before).0, requests[|requests| - 1]);
    }
  }

  // ---------- When the cache agrees ----------

  /** The cache holds nothing else under the hash of a served file, and no two served files share a hash. */
  ghost predicate Honest(env: Env, cache: Cache) {
    && (forall url | Serves(env, url) ::
          Cached(cache, env.sha(Served(env, url))) in {None, Some(Served(env, url))})
    && forall url, other | Serves(env, url) && Serves(env, other) ::
         env.sha(Served(env, url)) == env.sha(Served(env, other)) ==> Served(env, url) == Served(env, other)
  }

  predicate Serves(env: Env, url: string) {
    env.network(url).Ok? && env.network(url).value.Some?
  }

  function Served(env: Env, url: string): Bytes
    requires Serves(env, url)
  {
    env.network(url).value.value
  }

  lemma HonestStep(env: Env, w: World, q: Request)
    requires Honest(env, w.session.cache)
    ensures Honest(env, Step(env, w, q).0.session.cache) && FreshAgrees(env, w, q)
  {
    hide PassesThrough;
    var cache, cache' := w.session.cache, Step(env, w, q).0.session.cache;
    assert Serves(env, q.url) || !Serves(env, q.url);
    assert cache' == cache || (Serves(env, q.url) && cache' == CachePut(cache, env.sha(Served(env, q.url)), Some(Served(env, q.url))));
  }

  lemma {:induction false} HonestRun(env: Env, cache: Cache, requests: seq<Request>)
    requires Honest(env, cache)
    ensures Honest(env, Run(env, cache, requests).0.session.cache) && CacheAgrees(env, cache, requests)
    decreases |requests|
  {
    hide Step, FreshAgrees, Honest;
    if requests != [] {
      var before, q := requests[..|requests| - 1], requests[|requests| - 1];
      assert requests == before + [q];
      HonestRun(env, cache, before);
      CacheAgreesSplit(env, cache, before, q);
      HonestStep(env, Run(env, cache, before).0, q);
    }
  }

  /** With an honest cache every answered run can be replayed, answer for answer. */
  lemma HonestReplay(env: Env, cache: Cache, requests: seq<Request>)
    requires Honest(env, cache) && AllAnswered(Run(env, cache, requests).1)
    ensures var (w, answers) := Run(env, cache, requests);
            Run(After(env, w.session.touched), cache, requests).1 == answers
            && Run(After(env, w.session.touched), cache, requests).0.session.touched == w.session.touched
  {
    HonestRun(env, cache, requests);
    Replay(env, cache, requests);
  }

  /** A damaged cache entry goes unnoticed in the first run and stops the second. */
  lemma DamagedCacheStopsReplay()
    ensures var env := Env(Update, map[], (url: string) => Ok(Some("x")), (bytes: Bytes) => bytes);
            var cache, requests := Some(map["x" := "y"]), [Request(0, "u")];
            var (w, answers) := Run(env, cache, requests);
            answers == [Ok(Some("x"))]
            && Run(After(env, w.session.touched), cache, requests).1 == [Err(ChecksumMismatch)]
  {
    var env := Env(Update, map[], (url: string) => Ok(Some("x")), (bytes: Bytes) => bytes);
    var cache, requests := Some(map["x" := "y"]), [Request(0, "u")];
    assert requests[..0] == [];
    assert "u"[0] == 'u' && "file://"[0] == 'f' && "/"[0] == '/' && |"/metadata.json"| == 14;
    assert !PassesThrough("u");
    assert Run(env, cache, requests[..0]) == (World(Session(map[], cache, []), map[]), []);
    var (w, answers) := Run(env, cache, requests);
    assert w.session.touched == map["u" := Sha256("x")];
    var after := After(env, w.session.touched);
    assert Run(after, cache, requests[..0]) == (World(Session(map[], cache, []), map[]), []);
  }
}
