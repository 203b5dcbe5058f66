/** `buildContextPrompt` of the worker: the persona prompt, then the recent
    channel history one line per spoken message, then the new message and
    an open "Assistant:" turn. The persona prompt comes from a module that is
    not part of this model, so it is a parameter. */
module Prompt {
  import opened Values

  /** The author of a fetched channel message, after nickname resolution. */
  datatype Author = Author(bot: bool, nickname: Option<string>, username: Option<string>)

  /** A fetched channel message, oldest first in the history. */
  datatype HistoryMessage = HistoryMessage(author: Option<Author>, content: Option<string>)

  /** The text between the persona prompt and the history lines. */
  const HistoryIntro: string := "\n\n以下は最近の会話履歴です：\n\n"

  /** Bots speak as "Assistant"; people by nickname, else user name, else "User". */
  function SpeakerLabel(author: Option<Author>): (speaker: string)
    ensures speaker != ""
    ensures author.Some? && author.value.bot ==> speaker == "Assistant"
    ensures author.None? ==> speaker == "User"
    ensures author.Some? && !author.value.bot ==>
              var a := author.value;
              && (Truthy(a.nickname) ==> speaker == a.nickname.value)
              && (!Truthy(a.nickname) && Truthy(a.username) ==> speaker == a.username.value)
              && (!Truthy(a.nickname) && !Truthy(a.username) ==> speaker == "User")
  {
    match author
    case None => "User"
    case Some(a) =>
      if a.bot then "Assistant" else OrElse(a.nickname, OrElse(a.username, "User"))
  }

  /** The line a message contributes: nothing when its content is empty or missing. */
  function HistoryLine(m: HistoryMessage): (line: string)
    ensures line == "" <==> !Truthy(m.content)
    ensures line != "" ==> line[|line| - 1] == '\n'
  {
    if Truthy(m.content) then SpeakerLabel(m.author) + ": " + m.content.value + "\n" else ""
  }

  function HistoryLines(history: seq<HistoryMessage>): string {
    if history == [] then "" else HistoryLine(history[0]) + HistoryLines(history[1..])
  }

  /** The messages that have something to say, in their original order. */
  function Spoken(history: seq<HistoryMessage>): (spoken: seq<HistoryMessage>)
    ensures |spoken| <= |history|
    ensures forall msg :: msg in spoken <==> msg in history && Truthy(msg.content)
  {
    if history == [] then []
    else if Truthy(history[0].content) then [history[0]] + Spoken(history[1..])
    else Spoken(history[1..])
  }

  /** Keeping the spoken messages distributes over concatenation, so they
      stay in their original order. */
  lemma {:induction false} SpokenAppend(a: seq<HistoryMessage>, b: seq<HistoryMessage>)
    ensures Spoken(a + b) == Spoken(a) + Spoken(b)
  {
    if a == [] {
      assert a + b == b;
    } else {
      assert (a + b)[0] == a[0];
      assert (a + b)[1..] == a[1..] + b;
      SpokenAppend(a[1..], b);
    }
  }

  /** The new message as the final turn, left open for the model to continue. */
  function CurrentTurn(nickname: string, message: string): string {
    nickname + ": " + message + "\n\nAssistant:"
  }

  function BuildContextPrompt(systemPrompt: string, history: seq<HistoryMessage>, message: string, nickname: string): (prompt: string)
    ensures history == [] ==> prompt == systemPrompt + "\n\n" + CurrentTurn(nickname, message)
    ensures |prompt| >= |systemPrompt| && prompt[..|systemPrompt|] == systemPrompt
    ensures var tail := "\n" + CurrentTurn(nickname, message);
            |prompt| >= |systemPrompt| + |tail| && prompt[|prompt| - |tail|..] == tail
    ensures history != [] ==>
              var start := |systemPrompt| + |HistoryIntro|;
              var lines := HistoryLines(history);
              && |prompt| == start + |lines| + 1 + |CurrentTurn(nickname, message)|
              && prompt[|systemPrompt|..start] == HistoryIntro
              && prompt[start..start + |lines|] == lines
  {
    var turn := CurrentTurn(nickname, message);
    if history == [] then
      Framed(systemPrompt, "\n", "", turn);
      systemPrompt + "\n\n" + turn
    else
      var lines := HistoryLines(history);
      Framed(systemPrompt, HistoryIntro, lines, turn);
      systemPrompt + HistoryIntro + lines + "\n" + turn
  }

  /** Where the pieces of `head + intro + body + "\n" + turn` sit. */
  lemma Framed(head: string, intro: string, body: string, turn: string)
    ensures var whole := head + intro + body + "\n" + turn;
            var tail := "\n" + turn;
            && |whole| == |head| + |intro| + |body| + 1 + |turn|
            && whole[..|head|] == head
            && whole[|head|..|head| + |intro|] == intro
            && whole[|head| + |intro|..|head| + |intro| + |body|] == body
            && whole[|whole| - |tail|..] == tail
  {
  }

  /** The history text of a concatenation is the concatenation of the history texts. */
  lemma {:induction false} HistoryLinesAppend(a: seq<HistoryMessage>, b: seq<HistoryMessage>)
    ensures HistoryLines(a + b) == HistoryLines(a) + HistoryLines(b)
  {
    if a != [] {
      assert (a + b)[1..] == a[1..] + b;
      HistoryLinesAppend(a[1..], b);
    } else {
      assert a + b == b;
    }
  }

  /** Silent messages leave no trace: the history text is that of the spoken messages alone. */
  lemma {:induction false} HistoryLinesOfSpoken(history: seq<HistoryMessage>)
    ensures HistoryLines(history) == HistoryLines(Spoken(history))
  {
    if history != [] {
      HistoryLinesOfSpoken(history[1..]);
      if Truthy(history[0].content) {
        assert ([history[0]] + Spoken(history[1..]))[1..] == Spoken(history[1..]);
      }
    }
  }

  /** A spoken message contributes exactly one line "author: content". */
  lemma OneLinePerMessage(m: HistoryMessage)
    requires Truthy(m.content)
    ensures HistoryLines([m]) == SpeakerLabel(m.author) + ": " + m.content.value + "\n"
  {
    assert HistoryLines([m][1..]) == "";
  }

  /** With one spoken message in the history the prompt is, in full: the
      persona prompt, the intro, that message's "author: content" line, a
      blank line, and the open turn. */
  lemma SingleMessagePrompt(systemPrompt: string, m: HistoryMessage, message: string, nickname: string)
    requires Truthy(m.content)
    ensures BuildContextPrompt(systemPrompt, [m], message, nickname)
            == systemPrompt + HistoryIntro + SpeakerLabel(m.author) + ": " + m.content.value + "\n"
               + "\n" + CurrentTurn(nickname, message)
  {
    OneLinePerMessage(m);
  }
}
