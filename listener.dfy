/** The stream listener's dedup filter: which incoming tweets are handed to
    the retweet worker, and the state it keeps across deliveries. */
module Stream {
  import opened Text
  import opened ActionQueue

  /** An incoming status. `isRetweet` stands for the presence of a
      `retweeted_status` attribute on the tweet object. */
  datatype Status = Status(id: int, text: string, isRetweet: bool)

  /** What the listener does about an error code from the stream. */
  datatype ErrorResponse = CoolDown(seconds: nat) | LogWarning(code: int)

  /** The stream's "enhance your calm" rate-limit code. */
  const RateLimited: int := 420
  const CoolDownSeconds: nat := 60

  /** The text, as the matcher compares it: stripped, then lower-cased. */
  function Haystack(text: string): string {
    Lower(Strip(text))
  }

  /** The phrase, lower-cased, occurs in the normalised text. */
  predicate PhraseHits(text: string, phrase: string) {
    Contains(Haystack(text), Lower(phrase))
  }

  /** The phrases are tried in order until one hits. */
  predicate Matches(text: string, phrases: seq<string>)
    decreases |phrases|
  {
    phrases != [] && (PhraseHits(text, phrases[0]) || Matches(text, phrases[1..]))
  }

  /** The filter `should_retweet` evaluates against the ids seen so far. */
  predicate Accepts(seen: set<int>, phrases: seq<string>, s: Status) {
    Matches(s.text, phrases) && !s.isRetweet && s.id !in seen
  }

  function IdsOf(ss: seq<Status>): set<int> {
    set i | 0 <= i < |ss| :: ss[i].id
  }

  predicate DistinctIds(ss: seq<Status>) {
    forall i, j :: 0 <= i < j < |ss| ==> ss[i].id != ss[j].id
  }

  class Listener {
    /** The queue shared with the retweet worker. */
    const actionQueue: LifoQueue<Status>
    /** Ids of every status handed to the worker so far. */
    var alreadyRetweeted: set<int>
    /** Every status this listener has put on the queue, in order. The worker
        pops from the queue, so its contents alone do not record this. */
    ghost var puts: seq<Status>

    /** Every id put is recorded, nothing else is, and no id was put twice. */
    ghost predicate Valid()
      reads this
    {
      DistinctIds(puts) && IdsOf(puts) == alreadyRetweeted
    }

    constructor (actionQueue: LifoQueue<Status>)
      ensures Valid()
      ensures this.actionQueue == actionQueue
      ensures alreadyRetweeted == {} && puts == []
    {
      this.actionQueue := actionQueue;
      alreadyRetweeted := {};
      puts := [];
    }

    /** `phrase_matches`: try the phrases in order, stop at the first hit. */
    method PhraseMatches(text: string, phrases: seq<string>) returns (found: bool)
      ensures found == Matches(text, phrases)
      ensures found ==> phrases != []
    {
      var i := 0;
      while i < |phrases|
        invariant 0 <= i <= |phrases|
        invariant Matches(text, phrases) == Matches(text, phrases[i..])
      {
        if Contains(Lower(Strip(text)), Lower(phrases[i])) {
          return true;
        }
        assert phrases[i..][1..] == phrases[i + 1..];
        i := i + 1;
      }
      return false;
    }

    /** `should_retweet`: a match, not a retweet, and not retweeted before. */
    method ShouldRetweet(s: Status, phrases: seq<string>) returns (ok: bool)
      ensures ok == Accepts(alreadyRetweeted, phrases, s)
      ensures ok ==> s.id !in alreadyRetweeted
    {
      var matches := PhraseMatches(s.text, phrases);
      ok := matches && !s.isRetweet && s.id !in alreadyRetweeted;
    }

    /** `on_status`: an accepted status is put on the queue, then its id is
        recorded; a rejected one changes nothing. */
    method OnStatus(s: Status, phrases: seq<string>)
      requires Valid()
      modifies this, actionQueue
      ensures Valid()
      ensures Accepts(old(alreadyRetweeted), phrases, s) ==>
        actionQueue.items == old(actionQueue.items) + [s] &&
        alreadyRetweeted == old(alreadyRetweeted) + {s.id} &&
        puts == old(puts) + [s]
      ensures !Accepts(old(alreadyRetweeted), phrases, s) ==>
        actionQueue.items == old(actionQueue.items) &&
        alreadyRetweeted == old(alreadyRetweeted) &&
        puts == old(puts)
      ensures |puts| == |alreadyRetweeted|
    {
      var ok := ShouldRetweet(s, phrases);
      if ok {
        actionQueue.Put(s);
        alreadyRetweeted := alreadyRetweeted + {s.id};
        RecordFresh(puts, s);
        puts := puts + [s];
      }
      DistinctIdsCount(puts);
    }

    /** `on_error`: 420 means back off for a minute, anything else is logged.
        Neither touches the queue or the seen ids (no `modifies`). */
    method OnError(statusCode: int) returns (r: ErrorResponse)
      ensures r.CoolDown? <==> statusCode == RateLimited
      ensures r.CoolDown? ==> r.seconds == CoolDownSeconds
      ensures r.LogWarning? ==> r.code == statusCode
    {
      if statusCode == RateLimited {
        r := CoolDown(CoolDownSeconds);
      } else {
        r := LogWarning(statusCode);
      }
    }
  }

  /** The same status delivered twice (the phrase file may be re-read in
      between) is enqueued at most once and its id recorded at most once. */
  method DeliverTwice(l: Listener, s: Status, phrases1: seq<string>, phrases2: seq<string>)
    requires l.Valid()
    modifies l, l.actionQueue
    ensures l.Valid()
    ensures Accepts(old(l.alreadyRetweeted), phrases1, s) || Accepts(old(l.alreadyRetweeted), phrases2, s) ==>
      l.actionQueue.items == old(l.actionQueue.items) + [s] &&
      l.alreadyRetweeted == old(l.alreadyRetweeted) + {s.id} &&
      l.puts == old(l.puts) + [s]
    ensures !(Accepts(old(l.alreadyRetweeted), phrases1, s) || Accepts(old(l.alreadyRetweeted), phrases2, s)) ==>
      l.actionQueue.items == old(l.actionQueue.items) &&
      l.alreadyRetweeted == old(l.alreadyRetweeted) &&
      l.puts == old(l.puts)
  {
    l.OnStatus(s, phrases1);
    l.OnStatus(s, phrases2);
  }

  /** Each pass of the bot's retry loop calls `run`, which builds a new
      listener, with an empty set of retweeted ids, over the same queue. A
      matching status handed to the listeners of two `run` calls is therefore
      put twice: the dedup holds per `run` call, not per process. */
  method ReconnectRequeues(q: LifoQueue<Status>, s: Status, phrases: seq<string>)
    returns (first: Listener, second: Listener)
    requires Matches(s.text, phrases) && !s.isRetweet
    modifies q
    ensures first.actionQueue == q && second.actionQueue == q && first != second
    ensures first.alreadyRetweeted == {s.id} && second.alreadyRetweeted == {s.id}
    ensures q.items == old(q.items) + [s, s]
  {
    assert Accepts({}, phrases, s);
    first := new Listener(q);
    first.OnStatus(s, phrases);
    second := new Listener(q);
    second.OnStatus(s, phrases);
    assert old(q.items) + [s] + [s] == old(q.items) + [s, s];
  }

  lemma IdsOfAppend(ss: seq<Status>, s: Status)
    ensures IdsOf(ss + [s]) == IdsOf(ss) + {s.id}
  {
    var ts := ss + [s];
    assert ts[|ss|].id == s.id;
    forall x | x in IdsOf(ss)
      ensures x in IdsOf(ts)
    {
      var i :| 0 <= i < |ss| && ss[i].id == x;
      assert ts[i] == ss[i];
    }
  }

  /** Putting a status whose id is not yet recorded keeps the ids distinct
      and records exactly that id. */
  lemma RecordFresh(ss: seq<Status>, s: Status)
    requires DistinctIds(ss) && s.id !in IdsOf(ss)
    ensures DistinctIds(ss + [s])
    ensures IdsOf(ss + [s]) == IdsOf(ss) + {s.id}
  {
    IdsOfAppend(ss, s);
    var ts := ss + [s];
    forall i, j | 0 <= i < j < |ts| ensures ts[i].id != ts[j].id {
      if j == |ss| {
        assert ts[i] == ss[i];
      } else {
        assert ts[i] == ss[i] && ts[j] == ss[j];
      }
    }
  }

  /** With no repeated id, there are as many recorded ids as puts. */
  lemma {:induction false} DistinctIdsCount(ss: seq<Status>)
    requires DistinctIds(ss)
    ensures |IdsOf(ss)| == |ss|
    decreases |ss|
  {
    if ss != [] {
      var init, last := ss[..|ss| - 1], ss[|ss| - 1];
      assert ss == init + [last];
      assert DistinctIds(init) by {
        forall i, j | 0 <= i < j < |init| ensures init[i].id != init[j].id {
          assert init[i] == ss[i] && init[j] == ss[j];
        }
      }
      DistinctIdsCount(init);
      IdsOfAppend(init, last);
      assert last.id !in IdsOf(init);
    }
  }

  /** Trying the phrases in order finds a hit exactly when some phrase hits. */
  lemma {:induction false} MatchesIffSomePhrase(text: string, phrases: seq<string>)
    ensures Matches(text, phrases) <==> exists k :: 0 <= k < |phrases| && PhraseHits(text, phrases[k])
    decreases |phrases|
  {
    if phrases != [] {
      MatchesIffSomePhrase(text, phrases[1..]);
      if PhraseHits(text, phrases[0]) {
        assert 0 < |phrases|;
      } else if Matches(text, phrases[1..]) {
        var k :| 0 <= k < |phrases[1..]| && PhraseHits(text, phrases[1..][k]);
        assert phrases[k + 1] == phrases[1..][k];
      } else {
        forall k | 0 <= k < |phrases|
          ensures !PhraseHits(text, phrases[k])
        {
          if k > 0 {
            assert phrases[k] == phrases[1..][k - 1];
          }
        }
      }
    }
  }

  /** The matcher is exactly "some lower-cased phrase is a contiguous
      substring of the stripped, lower-cased text". */
  lemma MatchesIffSubstring(text: string, phrases: seq<string>)
    ensures Matches(text, phrases) <==>
      exists k, i :: 0 <= k < |phrases| && OccursAt(Haystack(text), Lower(phrases[k]), i)
  {
    MatchesIffSomePhrase(text, phrases);
    forall k | 0 <= k < |phrases| {
      ContainsIffOccurs(Haystack(text), Lower(phrases[k]));
    }
  }

  /** An empty phrase list matches nothing. */
  lemma NoPhrasesMatchNothing(text: string)
    ensures !Matches(text, [])
  {
  }

  /** A blank phrase (a blank line in the phrases file) matches every text. */
  lemma BlankPhraseMatchesAll(text: string, phrases: seq<string>)
    requires "" in phrases
    ensures Matches(text, phrases)
  {
    var k :| 0 <= k < |phrases| && phrases[k] == "";
    assert Lower(phrases[k]) == "" && PhraseHits(text, phrases[k]);
    MatchesIffSomePhrase(text, phrases);
  }

  /** Matching is case-insensitive in both the text and the phrases. */
  lemma MatchesIgnoresCase(t1: string, t2: string, ps1: seq<string>, ps2: seq<string>)
    requires Lower(t1) == Lower(t2)
    requires |ps1| == |ps2| && forall k :: 0 <= k < |ps1| ==> Lower(ps1[k]) == Lower(ps2[k])
    ensures Matches(t1, ps1) == Matches(t2, ps2)
  {
    StripLower(t1);
    StripLower(t2);
    assert Haystack(t1) == Haystack(t2);
    MatchesIffSomePhrase(t1, ps1);
    MatchesIffSomePhrase(t2, ps2);
    if Matches(t1, ps1) {
      var k :| 0 <= k < |ps1| && PhraseHits(t1, ps1[k]);
      assert PhraseHits(t2, ps2[k]);
    }
    if Matches(t2, ps2) {
      var k :| 0 <= k < |ps2| && PhraseHits(t2, ps2[k]);
      assert PhraseHits(t1, ps1[k]);
    }
  }

  /** Whitespace around the text never changes whether it matches. */
  lemma MatchesIgnoresSurroundingSpace(w1: string, text: string, w2: string, phrases: seq<string>)
    requires AllSpace(w1) && AllSpace(w2)
    ensures Matches(w1 + text + w2, phrases) == Matches(text, phrases)
  {
    StripIgnoresSurroundingSpace(w1, text, w2);
    assert Haystack(w1 + text + w2) == Haystack(text);
    MatchesIffSomePhrase(w1 + text + w2, phrases);
    MatchesIffSomePhrase(text, phrases);
  }

  /** A retweet is never accepted, whatever its text and id. */
  lemma RetweetRejected(seen: set<int>, phrases: seq<string>, s: Status)
    requires s.isRetweet
    ensures !Accepts(seen, phrases, s)
  {
  }

  /** A status whose id was already retweeted is rejected even when it matches. */
  lemma SeenRejected(seen: set<int>, phrases: seq<string>, s: Status)
    requires s.id in seen
    ensures !Accepts(seen, phrases, s)
  {
  }

  /** A status that is not a retweet, has an unseen id and is hit by one of
      the phrases is accepted. */
  lemma HitAccepted(seen: set<int>, phrases: seq<string>, s: Status, k: int)
    requires 0 <= k < |phrases| && PhraseHits(s.text, phrases[k])
    requires !s.isRetweet && s.id !in seen
    ensures Accepts(seen, phrases, s)
  {
    MatchesIffSomePhrase(s.text, phrases);
  }

  /** A tweet asking for new music is accepted against the phrase
      "need new music", one of the phrases the stream is filtered on. */
  lemma NeedNewMusicAccepted(seen: set<int>, id: int)
    requires id !in seen
    ensures Accepts(seen, ["need new music"], Status(id, "I need new music!!", false))
  {
    NeedNewMusicHits();
    HitAccepted(seen, ["need new music"], Status(id, "I need new music!!", false), 0);
  }

  lemma NeedNewMusicHits()
    ensures PhraseHits("I need new music!!", "need new music")
  {
    NeedNewMusicStripped();
    NeedNewMusicLowered();
    ContainsInfix(Lower("I "), "need new music", Lower("!!"));
  }

  lemma NeedNewMusicStripped()
    ensures Strip("I need new music!!") == "I need new music!!"
  {
    var text := "I need new music!!";
    assert StripLeft(text) == text by { assert !IsSpace(text[0]); }
    assert StripRight(text) == text by { assert !IsSpace(text[|text| - 1]); }
  }

  lemma NeedNewMusicLowered()
    ensures Lower("I need new music!!") == Lower("I ") + "need new music" + Lower("!!")
    ensures Lower("need new music") == "need new music"
  {
    var phrase := "need new music";
    assert "I need new music!!" == "I " + phrase + "!!";
    LowerAppend("I " + phrase, "!!");
    LowerAppend("I ", phrase);
    assert Lower(phrase) == phrase;
  }
}
