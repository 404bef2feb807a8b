/** The session store of src/backend.py: every request appends the user's
    question and then the bot's answer to the history of its session.  The
    store is passed in and handed back instead of living in a global
    dictionary; the answering chain is a parameter. */
module Session {
  import opened Wrappers
  import opened Text

  /** `session_history`: session id to its list of entries. */
  type Store = map<string, seq<string>>

  const UserPrefix := "User: "
  const BotPrefix := "Chatbot: "

  /** The JSON body of a successful reply (lines 28-31). */
  datatype Reply = Reply(response: string, history: seq<string>)

  /** The history of `sid`, empty for a session never seen. */
  function History(store: Store, sid: string): seq<string> {
    if sid in store then store[sid] else []
  }

  /** `get_response_with_guideline` (lines 19-31).  `respond` stands for the
      answering chain; when it raises, the user's entry has already been
      recorded and stays, and no reply is produced. */
  function GetResponse(store: Store, sid: string, query: string,
                       respond: string -> Result<string, string>): (out: (Store, Result<Reply, string>))
    ensures out.0.Keys == store.Keys + {sid}
    ensures forall other :: other in store && other != sid ==> out.0[other] == store[other]
    ensures var prior := History(store, sid);
            && |prior| < |out.0[sid]|
            && out.0[sid][..|prior|] == prior
            && out.0[sid][|prior|] == UserPrefix + Strip(query)
    ensures respond(Strip(query)).Failure? ==>
              |out.0[sid]| == |History(store, sid)| + 1 && out.1 == Failure(respond(Strip(query)).error)
    ensures respond(Strip(query)).Success? ==>
              && |out.0[sid]| == |History(store, sid)| + 2
              && out.1.Success?
              && out.1.value.response == respond(Strip(query)).value
              && out.1.value.history == out.0[sid]
              && out.0[sid][|out.0[sid]| - 1] == BotPrefix + out.1.value.response
  {
    var current := Strip(query);
    var asked := History(store, sid) + [UserPrefix + current];
    match respond(current)
    case Failure(e) => (store[sid := asked], Failure(e))
    case Success(response) =>
      var answered := asked + [BotPrefix + response];
      (store[sid := answered], Success(Reply(response, answered)))
  }

  /** The store after the requests `queries` of session `sid`, in order. */
  function Converse(store: Store, sid: string, queries: seq<string>,
                    respond: string -> Result<string, string>): Store
    decreases |queries|
  {
    if |queries| == 0 then store
    else Converse(GetResponse(store, sid, queries[0], respond).0, sid, queries[1..], respond)
  }

  /** Every request of `queries` is answered. */
  predicate AllAnswered(queries: seq<string>, respond: string -> Result<string, string>) {
    forall i :: 0 <= i < |queries| ==> respond(Strip(queries[i])).Success?
  }

  /** The entries an answered conversation adds, by an independent
      recursion over the requests: a user entry and a bot entry each. */
  function Exchange(queries: seq<string>, respond: string -> Result<string, string>): seq<string>
    requires AllAnswered(queries, respond)
    decreases |queries|
  {
    if |queries| == 0 then []
    else
      assert AllAnswered(queries[1..], respond) by {
        forall i | 0 <= i < |queries| - 1
          ensures respond(Strip(queries[1..][i])).Success?
        {
          assert queries[1..][i] == queries[i + 1];
        }
      }
      [UserPrefix + Strip(queries[0]), BotPrefix + respond(Strip(queries[0])).value]
      + Exchange(queries[1..], respond)
  }

  /** An answered request appends exactly its two entries. */
  lemma AnsweredRequestAppends(store: Store, sid: string, query: string,
                               respond: string -> Result<string, string>)
    requires respond(Strip(query)).Success?
    ensures History(GetResponse(store, sid, query, respond).0, sid)
            == History(store, sid) + [UserPrefix + Strip(query), BotPrefix + respond(Strip(query)).value]
  {
  }

  /** Lines 22-27 over a conversation: when every request is answered, the
      session's history is what it was followed by the exchange of the
      requests. */
  lemma {:induction false} ConverseAppendsExchange(store: Store, sid: string, queries: seq<string>,
                                                   respond: string -> Result<string, string>)
    requires AllAnswered(queries, respond)
    ensures History(Converse(store, sid, queries, respond), sid) == History(store, sid) + Exchange(queries, respond)
    decreases |queries|
  {
    if |queries| > 0 {
      var next := GetResponse(store, sid, queries[0], respond).0;
      var pair := [UserPrefix + Strip(queries[0]), BotPrefix + respond(Strip(queries[0])).value];
      AnsweredRequestAppends(store, sid, queries[0], respond);
      ConverseAppendsExchange(next, sid, queries[1..], respond);
      AppendAssoc(History(store, sid), pair, Exchange(queries[1..], respond));
    }
  }

  /** Regrouping a concatenation; stated apart so that the step of
      `ConverseAppendsExchange` stays small for the solver. */
  lemma AppendAssoc(a: seq<string>, b: seq<string>, c: seq<string>)
    ensures (a + b) + c == a + (b + c)
  {
  }

  /** Lines 17-27: a conversation of one session leaves every other session
      as it was, answered or not. */
  lemma {:induction false} ConverseKeepsOthers(store: Store, sid: string, queries: seq<string>,
                                               respond: string -> Result<string, string>, other: string)
    requires other in store && other != sid
    ensures other in Converse(store, sid, queries, respond)
    ensures Converse(store, sid, queries, respond)[other] == store[other]
    decreases |queries|
  {
    if |queries| > 0 {
      ConverseKeepsOthers(GetResponse(store, sid, queries[0], respond).0, sid, queries[1..], respond, other);
    }
  }

  /** The exchange of `n` requests has `2n` entries: the user entry of
      request `i` at `2i`, its bot entry at `2i + 1`. */
  lemma {:induction false} ExchangeAlternates(queries: seq<string>, respond: string -> Result<string, string>)
    requires AllAnswered(queries, respond)
    ensures |Exchange(queries, respond)| == 2 * |queries|
    ensures forall i :: 0 <= i < |queries| ==>
              Exchange(queries, respond)[2 * i] == UserPrefix + Strip(queries[i])
              && Exchange(queries, respond)[2 * i + 1] == BotPrefix + respond(Strip(queries[i])).value
    decreases |queries|
  {
    if |queries| > 0 {
      var e := Exchange(queries, respond);
      var rest := Exchange(queries[1..], respond);
      ExchangeAlternates(queries[1..], respond);
      forall i | 1 <= i < |queries|
        ensures e[2 * i] == UserPrefix + Strip(queries[i])
        ensures e[2 * i + 1] == BotPrefix + respond(Strip(queries[i])).value
      {
        AfterPair(e, e[0], e[1], rest, i);
        assert queries[1..][i - 1] == queries[i];
      }
    }
  }

  /** Past a leading pair, entries `2i` and `2i + 1` are those of the rest at `2(i - 1)` and `2(i - 1) + 1`. */
  lemma AfterPair(e: seq<string>, u: string, b: string, rest: seq<string>, i: nat)
    requires e == [u, b] + rest && 1 <= i && 2 * i + 1 < |e|
    ensures e[2 * i] == rest[2 * (i - 1)] && e[2 * i + 1] == rest[2 * (i - 1) + 1]
  {
  }

  /** Entry `j` of an exchange is a user entry when `j` is even and a bot
      entry when it is odd. */
  lemma ExchangePrefixes(queries: seq<string>, respond: string -> Result<string, string>, j: nat)
    requires AllAnswered(queries, respond) && j < 2 * |queries|
    ensures j < |Exchange(queries, respond)|
    ensures StartsWith(Exchange(queries, respond)[j], if j % 2 == 0 then UserPrefix else BotPrefix)
  {
    ExchangeAlternates(queries, respond);
    var i := j / 2;
    if j % 2 == 0 {
      assert j == 2 * i;
      StartsWithConcat(UserPrefix, Strip(queries[i]));
    } else {
      assert j == 2 * i + 1;
      StartsWithConcat(BotPrefix, respond(Strip(queries[i])).value);
    }
  }

  /** Lines 22-27 on a fresh session: after `n` answered requests the history
      has `2n` entries, alternating user and bot. */
  lemma FreshConversation(store: Store, sid: string, queries: seq<string>,
                          respond: string -> Result<string, string>)
    requires sid !in store && AllAnswered(queries, respond)
    ensures var h := History(Converse(store, sid, queries, respond), sid);
            && |h| == 2 * |queries|
            && (forall j :: 0 <= j < |h| ==> StartsWith(h[j], if j % 2 == 0 then UserPrefix else BotPrefix))
  {
    ConverseAppendsExchange(store, sid, queries, respond);
    ExchangeAlternates(queries, respond);
    assert History(Converse(store, sid, queries, respond), sid) == Exchange(queries, respond);
    forall j | 0 <= j < 2 * |queries|
      ensures StartsWith(Exchange(queries, respond)[j], if j % 2 == 0 then UserPrefix else BotPrefix)
    {
      ExchangePrefixes(queries, respond, j);
    }
  }
}
