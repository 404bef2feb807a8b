/** How the pieces fit: the entries src/backend.py writes and the messages
    src/guideline_bot_with_ollama.py builds are read back by src/app.py as
    what was meant. */
module Conversation {
  import opened Wrappers
  import opened Text
  import opened Intent
  import opened Session
  import opened Display

  /** A backend user entry (backend.py line 25) is shown with the question
      after one leading space (app.py line 246): the cut at 5 keeps the
      space the backend put after "User:". */
  lemma UserEntryRoundTrip(q: string)
    ensures DecodeEntry(UserPrefix + q) == UserEntry(" " + q)
  {
    StartsWithConcat(UserPrefix, q);
    assert (UserPrefix + q)[..|UserTag|] == UserTag;
    assert (UserPrefix + q)[UserCut..] == " " + q;
  }

  /** A backend bot entry (backend.py line 27) gives back exactly the
      response (app.py line 252). */
  lemma BotEntryRoundTrip(r: string)
    ensures DecodeEntry(BotPrefix + r) == BotEntry(r)
  {
    StartsWithConcat(BotPrefix, r);
    assert (BotPrefix + r)[..|BotTag|] == BotTag;
    assert (BotPrefix + r)[0] != UserTag[0];
  }

  /** The logo message of ollama.py line 66 is shown as the logo at the
      stripped path (app.py lines 255-262), provided the path does not
      itself hold the marker. */
  lemma LogoRoundTrip(path: string, isLast: bool, fileExists: string -> bool)
    requires !Contains(path, LogoMarker)
    ensures LogoPath(GetCompanyLogo(true, path)) == Strip(path)
    ensures BotView(GetCompanyLogo(true, path), isLast, fileExists)
            == if fileExists(Strip(path)) then LogoImage(Strip(path)) else LogoWarning
  {
    var msg := GetCompanyLogo(true, path);
    assert ReplaceAll(msg, LogoMarker, "") == path by {
      ReplaceAtStart(LogoMarker, path, "");
      ReplaceAbsent(path, LogoMarker, "");
      assert "" + path == path;
    }
    assert Contains(msg, LogoMarker) by {
      StartsWithConcat(LogoMarker, path);
    }
  }

  /** The message for a missing logo (ollama.py line 68) does not hold the
      marker, so it is shown as ordinary text. */
  lemma MissingLogoIsText(path: string, isLast: bool, fileExists: string -> bool)
    ensures BotView(GetCompanyLogo(false, path), isLast, fileExists) == BotBox(LogoMissing, isLast)
  {
    assert ':' !in LogoMissing;
    forall i | 0 <= i <= |LogoMissing|
      ensures !OccursAt(LogoMissing, LogoMarker, i)
    {
      if i + |LogoMarker| <= |LogoMissing| {
        assert LogoMissing[i + 11] in LogoMissing;
        assert LogoMissing[i..i + |LogoMarker|][11] != LogoMarker[11];
      }
    }
  }

  /** The view of a history whose entries `2i` and `2i + 1` are a user entry
      and a bot entry. */
  lemma PairView(h: seq<string>, fileExists: string -> bool, i: nat, q: string, r: string)
    requires 2 * i + 1 < |h| && h[2 * i] == UserPrefix + q && h[2 * i + 1] == BotPrefix + r
    ensures RenderPlan(h, fileExists)[2 * i] == UserBox(" " + q)
    ensures RenderPlan(h, fileExists)[2 * i + 1] == BotView(r, 2 * i + 1 == |h| - 1, fileExists)
  {
    UserEntryRoundTrip(q);
    BotEntryRoundTrip(r);
  }

  /** Backend and front end together: after a fresh session's answered
      requests, the front end shows each question as a user box and each
      response through the bot view, in the order asked, and only the last
      response can be typed out. */
  lemma FreshConversationView(store: Store, sid: string, queries: seq<string>,
                              respond: string -> Result<string, string>,
                              fileExists: string -> bool, i: nat)
    requires sid !in store && AllAnswered(queries, respond) && i < |queries|
    ensures var views := RenderPlan(History(Converse(store, sid, queries, respond), sid), fileExists);
            && |views| == 2 * |queries|
            && views[2 * i] == UserBox(" " + Strip(queries[i]))
            && views[2 * i + 1] == BotView(respond(Strip(queries[i])).value, i == |queries| - 1, fileExists)
  {
    ConverseAppendsExchange(store, sid, queries, respond);
    ExchangeAlternates(queries, respond);
    var h := Exchange(queries, respond);
    assert History(Converse(store, sid, queries, respond), sid) == h;
    PairView(h, fileExists, i, Strip(queries[i]), respond(Strip(queries[i])).value);
  }
}
