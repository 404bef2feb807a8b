/** What src/app.py does with the history the backend returns: each entry
    is classified by its prefix, the prefix is cut off, a bot message that
    carries the logo marker becomes a logo, and only the newest bot text is
    typed out one character at a time.  Streamlit rendering, HTML, sleeping
    and randomness are not modelled; the file test is a parameter. */
module Display {
  import opened Text
  import opened Intent

  /** The prefixes checked at lines 242 and 251. */
  const UserTag := "User:"
  const BotTag := "Chatbot:"
  /** How much of the entry lines 246 and 252 cut off. */
  const UserCut := 5
  const BotCut := 9

  /** An entry of the history with its prefix removed. */
  datatype Entry = UserEntry(text: string) | BotEntry(text: string) | Unknown

  /** Lines 241-252: classification by prefix, `message[5:]` for the user,
      `message[9:]` for the bot. */
  function DecodeEntry(message: string): (e: Entry)
    ensures e.UserEntry? <==> StartsWith(message, UserTag)
    ensures e.BotEntry? <==> !StartsWith(message, UserTag) && StartsWith(message, BotTag)
    ensures e.UserEntry? ==> message == message[..UserCut] + e.text
    ensures e.BotEntry? && |message| >= BotCut ==> message == message[..BotCut] + e.text
    ensures e.BotEntry? && |message| < BotCut ==> e.text == ""
  {
    if StartsWith(message, UserTag) then UserEntry(DropFirst(message, UserCut))
    else if StartsWith(message, BotTag) then BotEntry(DropFirst(message, BotCut))
    else Unknown
  }

  /** What one entry shows. */
  datatype View =
    | UserBox(text: string)
    | LogoImage(path: string)
    | LogoWarning
    | BotBox(text: string, animated: bool)
    | Nothing

  /** The path a logo message names: every marker removed, then stripped
      (line 256). */
  function LogoPath(botMessage: string): (path: string)
    ensures Stripped(path)
  {
    Strip(ReplaceAll(botMessage, LogoMarker, ""))
  }

  /** Lines 254-276: a bot message holding the logo marker anywhere shows
      the logo, or a warning when no file is at the path; any other bot
      message is text, typed out when it is the newest entry. */
  function BotView(botMessage: string, isLast: bool, fileExists: string -> bool): (v: View)
    ensures v.LogoImage? || v.LogoWarning? <==> Contains(botMessage, LogoMarker)
    ensures Contains(botMessage, LogoMarker) ==> (v.LogoImage? <==> fileExists(LogoPath(botMessage)))
    ensures v.LogoImage? ==> v.path == LogoPath(botMessage)
    ensures !Contains(botMessage, LogoMarker) ==> v == BotBox(botMessage, isLast)
  {
    if Contains(botMessage, LogoMarker) then
      var path := LogoPath(botMessage);
      if fileExists(path) then LogoImage(path) else LogoWarning
    else BotBox(botMessage, isLast)
  }

  /** The view of one history entry: a user box exactly for a user entry,
      nothing exactly for an entry with neither prefix, and bot text typed
      out only when it is the newest entry. */
  function ViewOf(message: string, isLast: bool, fileExists: string -> bool): (v: View)
    ensures v.UserBox? <==> StartsWith(message, UserTag)
    ensures v.Nothing? <==> !StartsWith(message, UserTag) && !StartsWith(message, BotTag)
    ensures v.BotBox? && v.animated ==> isLast
  {
    match DecodeEntry(message)
    case UserEntry(text) => UserBox(text)
    case BotEntry(text) => BotView(text, isLast, fileExists)
    case Unknown => Nothing
  }

  /** The loop at lines 241-276: one view per entry, in order, the last
      entry marked as the newest. */
  function RenderPlan(history: seq<string>, fileExists: string -> bool): (views: seq<View>)
    ensures |views| == |history|
    ensures forall i :: 0 <= i < |history| ==> views[i] == ViewOf(history[i], i == |history| - 1, fileExists)
  {
    seq(|history|, i requires 0 <= i < |history| => ViewOf(history[i], i == |history| - 1, fileExists))
  }

  /** Lines 266-276: no entry but the last is typed out; the last is typed
      out exactly when it is bot text without the logo marker. */
  lemma OnlyLastAnimated(history: seq<string>, fileExists: string -> bool)
    ensures forall i :: 0 <= i < |history| - 1 ==>
              !(RenderPlan(history, fileExists)[i].BotBox? && RenderPlan(history, fileExists)[i].animated)
    ensures |history| > 0 ==>
              var last := RenderPlan(history, fileExists)[|history| - 1];
              var e := DecodeEntry(history[|history| - 1]);
              (last.BotBox? && last.animated) <==> (e.BotEntry? && !Contains(e.text, LogoMarker))
  {
    var views := RenderPlan(history, fileExists);
    forall i | 0 <= i < |history| - 1
      ensures !(views[i].BotBox? && views[i].animated)
    {
      assert views[i] == ViewOf(history[i], false, fileExists);
    }
  }

  /** Lines 20-29: the texts `display_text_with_delay` shows one after the
      other, a character longer each time. */
  method TypingFrames(text: string) returns (frames: seq<string>)
    ensures |frames| == |text|
    ensures forall i :: 0 <= i < |text| ==> frames[i] == text[..i + 1]
    ensures |text| > 0 ==> frames[|text| - 1] == text
  {
    var output := "";
    frames := [];
    for n := 0 to |text|
      invariant output == text[..n]
      invariant |frames| == n
      invariant forall i :: 0 <= i < n ==> frames[i] == text[..i + 1]
    {
      output := output + [text[n]];
      frames := frames + [output];
    }
  }

  /** Each frame extends the one before it by one character, so every frame
      is a prefix of every later one. */
  lemma FramesGrow(text: string, frames: seq<string>, i: nat, j: nat)
    requires |frames| == |text| && forall k :: 0 <= k < |text| ==> frames[k] == text[..k + 1]
    requires i <= j < |text|
    ensures |frames[i]| == i + 1
    ensures frames[i] == frames[j][..i + 1]
  {
    assert frames[j][..i + 1] == text[..j + 1][..i + 1];
  }
}
