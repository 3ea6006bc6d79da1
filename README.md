# NeedNewMusicBot stream listener, modelled in Dafny

The bot watches the tweet stream for people asking for new music and hands
each matching tweet to a worker thread that retweets it. This project models
the part of the bot that decides what reaches the worker: the stream
`Listener` of `listener.py`, with its phrase matcher, its `should_retweet`
filter, the `already_retweeted` set it carries from one delivery to the next,
the `on_status` callback that feeds the shared action queue, and the
`on_error` callback. The action queue itself is modelled as the
last-in-first-out queue `app.py` builds.

- `text.dfy`, module `Text`: `str.lower()`, `str.strip()` and the substring
  test `p in t`, over ASCII.
- `action_queue.dfy`, module `ActionQueue`: the unbounded `queue.LifoQueue`
  as a class `LifoQueue<T>` whose `items` field is a sequence, top last.
- `listener.dfy`, module `Stream`: the `Status` of a tweet, the filter as
  specification predicates (`Matches`, `Accepts`), and the class `Listener`
  with the fields `alreadyRetweeted` (a set of ids) and `actionQueue` (the
  shared queue) and the methods `PhraseMatches`, `ShouldRetweet`, `OnStatus`
  and `OnError`.

The source re-reads the phrases file on every `phrase_matches` call, so the
phrase list is a parameter of each call here (`OnStatus(s, phrases)`), and a
different list may be passed on each delivery. A blank line of the file is an
empty phrase.

The listener carries a ghost field `puts`, the history of every status it has
put on the queue. Its invariant `Valid()` says that no id was put twice and
that the ids put are exactly `alreadyRetweeted`; `OnStatus` keeps it and
also proves that the number of puts equals the size of the set. The history is
needed because the worker pops from the same queue, so the queue's contents
alone do not record what was put.

`on_status` puts the status on the queue first and records its id second
(listener.py:23-24), and the model does the same. In a single-threaded model
the order is not observable, since an unbounded put cannot fail.

The set of retweeted ids lives in the listener, and every pass of the
reconnect loop in `main` (app.py:85-90) calls `run`, which builds a new
`Listener` (app.py:68) with an empty `already_retweeted` (listener.py:18) over
the same queue (app.py:77). The dedup proved here therefore holds per `run`
call (one `Listener`), not for the life of the process:
`Stream.ReconnectRequeues` shows a matching status put twice when a later
`run` call's listener is handed it again.

## Model

| member | source | states |
|---|---|---|
| Text.LowerChar | listener.py:40 | lower-casing a character never yields 'A'..'Z', moves 'A'..'Z' by 32, leaves every other character unchanged, and keeps whitespace whitespace |
| Text.StripLeft | listener.py:40 | the result is a suffix of the input, everything cut is whitespace, and it does not start with whitespace |
| Text.StripRight | listener.py:40 | the result is a prefix of the input, everything cut is whitespace, and it does not end with whitespace |
| Text.Lower | listener.py:40 | `lower()` keeps the length, leaves no 'A'..'Z' behind, moves each 'A'..'Z' by 32 and leaves every other character as it was |
| Text.Strip | listener.py:40 | `strip()` returns a contiguous slice of the text with only whitespace cut on both sides, neither end being whitespace |
| Text.Contains | listener.py:40 | the empty string is in every string, and nothing longer than the text is in it |
| Text.ContainsIffOccurs | listener.py:40 | the substring test `p in t` holds exactly when `p` occurs at some position of `t` |
| Text.ContainsInfix | listener.py:40 | a string is in any text built around it |
| Text.LowerAppend | listener.py:40 | lower-casing a concatenation lower-cases each part |
| Text.StripLower | listener.py:40 | stripping and lower-casing commute |
| Text.StripIgnoresSurroundingSpace | listener.py:40 | `strip()` of a text with whitespace added on either side is `strip()` of the text |
| ActionQueue.LifoQueue.constructor | app.py:77 | a new queue is empty |
| ActionQueue.LifoQueue.Put | listener.py:23 | `put` appends exactly the item on top and changes nothing else |
| ActionQueue.LifoQueue.Get | app.py:48 | `get` removes and returns the most recently put item; on an empty queue it returns nothing and the queue stays empty |
| ActionQueue.PutThenGet | app.py:77 | last in, first out: a get right after a put returns that item and restores the queue |
| ActionQueue.GetReversesPuts | app.py:77 | two items put are got back in reverse order, and the queue is restored |
| Stream.Listener.constructor | listener.py:13-18 | a new listener keeps the queue it was given, has retweeted nothing and satisfies its invariant |
| Stream.Listener.PhraseMatches | listener.py:38-42 | the early-return loop over the phrases answers exactly `Matches`; with no phrases it answers false |
| Stream.Listener.ShouldRetweet | listener.py:27-35 | true exactly when the text matches, the status is not a retweet and its id is not in `already_retweeted` |
| Stream.Listener.OnStatus | listener.py:21-24 | on acceptance the queue gains exactly that status on top and the set gains exactly its id; otherwise neither changes; the invariant (no id put twice, ids put equal the set) is kept and the number of puts equals the set's size |
| Stream.Listener.OnError | listener.py:50-55 | code 420 and only 420 gives a 60-second cool-down, every other code is logged with that code; with no `modifies` clause neither the queue nor the set can change |
| Stream.DeliverTwice | listener.py:21-24 | the same status delivered twice, even with the phrase file re-read between, is put and its id recorded exactly once when one of the two deliveries accepts it, and otherwise the queue, the set and the history are unchanged |
| Stream.ReconnectRequeues | app.py:85-90 | two listeners built one after the other over the same queue, as successive `run` calls do, both accept a matching non-retweet status, so the queue gains it twice and each listener records its id |
| Stream.RecordFresh | listener.py:23-24 | putting a status whose id is not recorded keeps the ids distinct and records exactly that id |
| Stream.DistinctIdsCount | listener.py:18-24 | with no id put twice, the set of ids has as many elements as there were puts |
| Stream.MatchesIffSomePhrase | listener.py:39-42 | trying the phrases in order hits exactly when some phrase hits |
| Stream.MatchesIffSubstring | listener.py:38-42 | the matcher holds exactly when some lower-cased phrase is a contiguous substring of the stripped, lower-cased text |
| Stream.NoPhrasesMatchNothing | listener.py:39-42 | an empty phrase list matches no text |
| Stream.BlankPhraseMatchesAll | listener.py:39-47 | a blank phrase, such as a blank line of the phrases file, makes every text match |
| Stream.MatchesIgnoresCase | listener.py:40 | two texts equal up to case, matched against phrase lists equal up to case, give the same answer |
| Stream.MatchesIgnoresSurroundingSpace | listener.py:40 | whitespace added around a text never changes whether it matches |
| Stream.RetweetRejected | listener.py:32 | a retweet is rejected whatever its text and id |
| Stream.SeenRejected | listener.py:34 | a status whose id is already recorded is rejected even if it matches and is not a retweet |
| Stream.HitAccepted | listener.py:27-35 | a status that is not a retweet, has an unseen id and is hit by some phrase is accepted |
| Stream.NeedNewMusicAccepted | listener.py:27-35 | "I need new music!!", not a retweet, with an unseen id, is accepted against the phrase list ["need new music"] |

## Left out

- Reading the phrases file (listener.py:45-47): the phrase list is a parameter of every call; `splitlines` turning a blank line into an empty phrase is covered by `BlankPhraseMatchesAll`.
- The `api` and `phrases_fname` fields of the listener (listener.py:15-16): `api` is only stored; `phrases_fname` is used only by `load_phrases` (listener.py:46), which the line above leaves out.
- Logging and `time.sleep(60)` in `on_error` (listener.py:52-55): `OnError` returns which branch was taken (`CoolDown(60)` or `LogWarning(code)`) instead of waiting or logging.
- The tweepy `StreamListener` base class and the stream that calls the callbacks (listener.py:5, listener.py:11-14, app.py:66-70): a foreign library; the model's callers stand in for it.
- Unicode case mapping and Unicode whitespace: `Text.Lower` maps only 'A'..'Z', and `Text.Strip` removes only the ASCII characters Python's `str.isspace()` accepts (space, 0x09-0x0D, 0x1C-0x1F).
- The worker thread `action_loop` (app.py:45-56): the blocking get, the network retweet call, the swallowed exceptions and the sleep are concurrency and I/O. Only its pop order is modelled, by `LifoQueue.Get`; the case where a blocking get would wait is the `None` answer.
- Concurrency between the listener and the worker on the shared queue: the model is sequential, and `OnStatus` states the queue's new contents assuming no pop happens during the call.
- Argument parsing, the JSON credentials file and the OAuth and API objects (app.py:26-42, app.py:59-63): I/O and library wrappers.
- The retry loop of `main` (app.py:85-90): it never ends and only logs and sleeps after any exception. The code has no whitelist of benign errors and no separate short and long delays, so none are modelled. Its effect on the dedup is modelled: each pass builds a new listener with an empty `already_retweeted` over the same queue, so `Valid` and `DeliverTwice` hold per `run` call (one `Listener`), and `Stream.ReconnectRequeues` shows a status handed to a later `run` call's listener being put a second time.
