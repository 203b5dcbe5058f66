/** The discord.py bot of `src/bot.py`: it reacts to messages that mention
    it, routes them by keyword, and keeps each user's memos in an in-memory
    dictionary from user id to a list of memos. The Gemini reply path is not
    modelled; routing to it is reported as `Conversed`. */
module MentionBot {
  import opened Text

  /** One saved memo: its text and the ISO time of the message that saved it. */
  datatype Note = Note(content: string, timestamp: string)

  /** `self.memos`: user id to that user's memos, oldest first. */
  type Memos = map<string, seq<Note>>

  /** The invariant save and delete keep: no user maps to an empty list. */
  ghost predicate NoEmptyLists(m: Memos) {
    forall u :: u in m ==> m[u] != []
  }

  /** An incoming message: its author's id, whether the bot itself wrote it,
      whether it mentions the bot, its text and its creation time. */
  datatype Message = Message(authorId: string, fromSelf: bool, mentionsBot: bool, content: string, createdAt: string)

  const MemoKeywords: seq<string> := ["memo", "メモ", "remember", "覚えて"]
  const DeleteKeywords: seq<string> := ["forget", "忘れて", "delete", "削除"]
  const ListKeywords: seq<string> := ["list", "一覧", "show", "見せて"]

  /** Discord's mention markup for the bot, `<@id>`. */
  function MentionToken(botId: string): (token: string)
    ensures |token| == |botId| + 3
    ensures token[..2] == "<@" && token[2..|token| - 1] == botId && token[|token| - 1] == '>'
  {
    "<@" + botId + ">"
  }

  /** `any(keyword in text for keyword in keywords)`. */
  predicate MentionsAny(text: string, keywords: seq<string>) {
    exists k :: 0 <= k < |keywords| && Contains(text, keywords[k])
  }

  datatype Action = SaveNote | DeleteNote | ListNotes | Converse

  /** The routing of `handle_mention` on the text left after removing the
      mention and stripping: memo keywords first, then delete keywords, then
      list keywords, and anything else goes to the conversation path. */
  function RouteText(text: string): (a: Action)
    ensures a == SaveNote <==> MentionsAny(AsciiLower(text), MemoKeywords)
    ensures a == DeleteNote <==> !MentionsAny(AsciiLower(text), MemoKeywords) && MentionsAny(AsciiLower(text), DeleteKeywords)
    ensures a == ListNotes <==> !MentionsAny(AsciiLower(text), MemoKeywords) && !MentionsAny(AsciiLower(text), DeleteKeywords)
                                && MentionsAny(AsciiLower(text), ListKeywords)
  {
    var lowered := AsciiLower(text);
    if MentionsAny(lowered, MemoKeywords) then SaveNote
    else if MentionsAny(lowered, DeleteKeywords) then DeleteNote
    else if MentionsAny(lowered, ListKeywords) then ListNotes
    else Converse
  }

  /** The text `handle_mention` and `save_memo` start from: the message with
      every mention of the bot removed, stripped. Without a mention it is
      just the stripped message; with one it is strictly shorter. */
  function WithoutMention(content: string, botId: string): (r: string)
    ensures Stripped(r)
    ensures !Contains(content, MentionToken(botId)) ==> r == Strip(content)
    ensures Contains(content, MentionToken(botId)) ==> |r| < |content|
    ensures var token := MentionToken(botId);
            forall i :: FirstOccurrence(content, token, i) ==>
              r == Strip(content[..i] + Replace(content[i + |token|..], token, ""))
  {
    Strip(Remove(content, MentionToken(botId)))
  }

  /** A message that opens with the mention and never repeats it loses
      exactly that mention: what is left is the rest of the message, stripped. */
  lemma MentionThenText(botId: string, text: string)
    requires !Contains(" " + text, MentionToken(botId))
    ensures WithoutMention(MentionToken(botId) + " " + text, botId) == Strip(" " + text)
  {
    var token := MentionToken(botId);
    assert token + " " + text == token + (" " + text);
    RemoveLeading(token, " " + text);
  }

  /** Routing ignores letter case. */
  lemma RouteIgnoresCase(text: string)
    ensures RouteText(AsciiLower(text)) == RouteText(text)
  {
    AsciiLowerIdempotent(text);
  }

  /** Memo keywords outrank everything else: a text that says "memo" in any
      letter case is saved, even when it also names a delete or list keyword. */
  lemma MemoWordAlwaysSaves(text: string, i: int)
    requires OccursAt(AsciiLower(text), "memo", i)
    ensures RouteText(text) == SaveNote
  {
    assert MemoKeywords[0] == "memo";
    ContainsAt(AsciiLower(text), "memo", i);
  }

  /** "MEMO", "Memo" and "memo" all count as the memo keyword. */
  lemma CapitalisedMemoSaves(text: string, i: int)
    requires OccursAt(text, "MEMO", i) || OccursAt(text, "Memo", i) || OccursAt(text, "memo", i)
    ensures RouteText(text) == SaveNote
  {
    assert AsciiLower("MEMO") == "memo" && AsciiLower("Memo") == "memo" && AsciiLower("memo") == "memo";
    if OccursAt(text, "MEMO", i) {
      LowerKeepsOccurrence(text, "MEMO", i);
    } else if OccursAt(text, "Memo", i) {
      LowerKeepsOccurrence(text, "Memo", i);
    } else {
      LowerKeepsOccurrence(text, "memo", i);
    }
    MemoWordAlwaysSaves(text, i);
  }

  /** `content = content.replace(keyword, '').strip()` for each keyword in turn. */
  function RemoveKeywords(text: string, keywords: seq<string>): (r: string)
    ensures |r| <= |text|
    ensures keywords != [] ==> Stripped(r)
    decreases |keywords|
  {
    if keywords == [] then text
    else
      RemoveKeywords(Strip(Remove(text, keywords[0])), keywords[1..])
  }

  /** The memo text `save_memo` keeps: the message without the mention and
      without every occurrence of each memo keyword (case-sensitively), stripped. */
  function CleanMemoText(content: string, botId: string): (r: string)
    ensures Stripped(r)
    ensures MentionsAny(WithoutMention(content, botId), MemoKeywords) <==> |r| < |WithoutMention(content, botId)|
  {
    var text := WithoutMention(content, botId);
    MemoKeywordsNonEmpty();
    RemoveKeywordsShortensIff(text, MemoKeywords);
    RemoveKeywords(text, MemoKeywords)
  }

  lemma MemoKeywordsNonEmpty()
    ensures forall k :: 0 <= k < |MemoKeywords| ==> MemoKeywords[k] != ""
  {
    assert MemoKeywords == ["memo", "メモ", "remember", "覚えて"];
  }

  /** "@bot memo <text>" saves just the text, when the text names no memo
      keyword and the mention is not repeated. */
  lemma MentionMemoCleaned(botId: string, rest: string)
    requires rest != ""
    requires Stripped(rest)
    requires !MentionsAny(rest, MemoKeywords)
    requires !Contains(" memo " + rest, MentionToken(botId))
    ensures CleanMemoText(MentionToken(botId) + " memo " + rest, botId) == rest
  {
    MentionThenMemo(botId, rest);
    MemoPrefixRemoved(rest);
  }

  lemma MentionThenMemo(botId: string, rest: string)
    requires rest != ""
    requires Stripped(rest)
    requires !Contains(" memo " + rest, MentionToken(botId))
    ensures WithoutMention(MentionToken(botId) + " memo " + rest, botId) == "memo " + rest
  {
    var memoText := "memo " + rest;
    MemoWordSplit(rest);
    assert MentionToken(botId) + " memo " + rest == MentionToken(botId) + " " + memoText;
    MentionThenText(botId, memoText);
    assert memoText[0] == 'm' && memoText[|memoText| - 1] == rest[|rest| - 1];
    StripAfterSpace(memoText);
  }

  /** "<@42> memo buy milk" saves "buy milk". */
  lemma MemoExample()
    ensures CleanMemoText("<@42> memo buy milk", "42") == "buy milk"
  {
    var rest := "buy milk";
    MissingCharNotContained(rest, "memo", 1);
    MissingCharNotContained(rest, "メモ", 0);
    MissingCharNotContained(rest, "remember", 1);
    MissingCharNotContained(rest, "覚えて", 0);
    MissingCharNotContained(" memo " + rest, MentionToken("42"), 0);
    assert MentionToken("42") + " memo " + rest == "<@42> memo buy milk";
    MentionMemoCleaned("42", rest);
  }

  /** On stripped text, removing non-empty keywords shortens it exactly when
      one of them occurs: an occurring keyword is taken out, and text
      without any keyword passes through. */
  lemma {:induction false} RemoveKeywordsShortensIff(text: string, keywords: seq<string>)
    requires Stripped(text)
    requires forall k :: 0 <= k < |keywords| ==> keywords[k] != ""
    ensures MentionsAny(text, keywords) <==> |RemoveKeywords(text, keywords)| < |text|
    decreases |keywords|
  {
    if keywords == [] {
    } else if !MentionsAny(text, keywords) {
      RemoveKeywordsKeepsPlainText(text, keywords);
    } else {
      var first := Remove(text, keywords[0]);
      var next := Strip(first);
      if Contains(text, keywords[0]) {
        assert |first| < |text|;
        assert |RemoveKeywords(text, keywords)| <= |next| <= |first|;
      } else {
        RemoveAbsent(text, keywords[0]);
        StrippedFixed(text);
        assert next == text;
        var k :| 0 <= k < |keywords| && Contains(text, keywords[k]);
        assert k > 0 && keywords[1..][k - 1] == keywords[k];
        assert MentionsAny(text, keywords[1..]);
        RemoveKeywordsShortensIff(text, keywords[1..]);
      }
    }
  }

  /** A text that opens with the word "memo" and names no memo keyword after
      it keeps just what follows the word. */
  lemma MemoPrefixRemoved(rest: string)
    requires Stripped(rest)
    requires !MentionsAny(rest, MemoKeywords)
    ensures RemoveKeywords("memo " + rest, MemoKeywords) == rest
  {
    assert MemoKeywords[0] == "memo";
    NoMemoAfterSpace(rest);
    MemoWordSplit(rest);
    RemoveLeading("memo", " " + rest);
    StripAfterSpace(rest);
    MentionsNoneOfTail(rest, MemoKeywords);
    RemoveKeywordsKeepsPlainText(rest, MemoKeywords[1..]);
  }

  /** Where the word and the spaces around it sit in "memo " + rest. */
  lemma MemoWordSplit(rest: string)
    ensures "memo " + rest == "memo" + (" " + rest)
    ensures " memo " + rest == " " + ("memo " + rest)
  {
  }

  lemma NoMemoAfterSpace(rest: string)
    requires !Contains(rest, "memo")
    ensures !Contains(" " + rest, "memo")
  {
    ContainsAcrossSeparator("", " ", rest, "memo");
    assert "" + " " + rest == " " + rest;
  }

  /** Naming none of a list of keywords means naming none of its tail. */
  lemma MentionsNoneOfTail(text: string, keywords: seq<string>)
    requires keywords != []
    requires !MentionsAny(text, keywords)
    ensures !MentionsAny(text, keywords[1..])
  {
    forall k | 0 <= k < |keywords[1..]| ensures !Contains(text, keywords[1..][k]) {
      assert keywords[1..][k] == keywords[k + 1];
    }
  }

  /** Text that is already stripped and holds no keyword passes through unchanged. */
  lemma {:induction false} RemoveKeywordsKeepsPlainText(text: string, keywords: seq<string>)
    requires Stripped(text)
    requires !MentionsAny(text, keywords)
    ensures RemoveKeywords(text, keywords) == text
  {
    if keywords != [] {
      ContainsAt(text, "", 0);
      assert keywords[0] != "";
      RemoveIdentityIff(text, keywords[0]);
      StrippedFixed(text);
      MentionsNoneOfTail(text, keywords);
      RemoveKeywordsKeepsPlainText(text, keywords[1..]);
    }
  }

  /** Keyword removal is case-sensitive while routing is not: "MEMO buy"
      is routed to saving and keeps its "MEMO". */
  lemma CapitalisedKeywordKept()
    ensures RouteText("MEMO buy") == SaveNote
    ensures RemoveKeywords("MEMO buy", MemoKeywords) == "MEMO buy"
  {
    var text := "MEMO buy";
    assert text[0..4] == "MEMO";
    CapitalisedMemoSaves(text, 0);
    NoLowerCaseMemoKeyword();
    assert Stripped(text);
    RemoveKeywordsKeepsPlainText(text, MemoKeywords);
  }

  lemma NoLowerCaseMemoKeyword()
    ensures !MentionsAny("MEMO buy", MemoKeywords)
  {
    var text := "MEMO buy";
    MissingCharNotContained(text, "memo", 0);
    MissingCharNotContained(text, "メモ", 0);
    MissingCharNotContained(text, "remember", 0);
    MissingCharNotContained(text, "覚えて", 0);
  }

  /** A user's memos, or none. */
  function NotesOf(m: Memos, userId: string): seq<Note> {
    if userId in m then m[userId] else []
  }

  const AskForContent: string := "メモする内容を教えてください。"
  const NoMemos: string := "メモがありません。"
  const ListHeader: string := "\U{1F4DD} あなたのメモ一覧:\n\n"

  /** Discord's message length limit, applied by `[:2000]`. */
  const MessageLimit: nat := 2000

  function SavedReply(content: string): string {
    "メモを保存しました: " + content
  }

  function DeletedReply(content: string): string {
    "メモを削除しました: " + content
  }

  /** The memos after a handler and the reply it sent. */
  datatype Outcome = Outcome(memos: Memos, reply: string)

  /** Appends a note to one user's list, creating the list if absent. */
  function AddNote(m: Memos, userId: string, note: Note): (m': Memos)
    ensures userId in m' && m'[userId] == NotesOf(m, userId) + [note]
    ensures forall u :: u != userId ==> (u in m' <==> u in m) && NotesOf(m', u) == NotesOf(m, u)
    ensures NoEmptyLists(m) ==> NoEmptyLists(m')
  {
    m[userId := NotesOf(m, userId) + [note]]
  }

  /** The storing half of `save_memo`, given the cleaned text: an empty
      text asks for content and stores nothing; otherwise the note goes to
      the end of the author's list, which is created if absent, and no other
      user's list changes. */
  function SaveText(m: Memos, userId: string, text: string, timestamp: string): (o: Outcome)
    ensures text == "" ==> o == Outcome(m, AskForContent)
    ensures text != "" ==>
              && userId in o.memos && o.memos[userId] == NotesOf(m, userId) + [Note(text, timestamp)]
              && o.reply == SavedReply(text)
    ensures forall u :: u != userId ==> (u in o.memos <==> u in m) && NotesOf(o.memos, u) == NotesOf(m, u)
    ensures NoEmptyLists(m) ==> NoEmptyLists(o.memos)
  {
    if text == "" then Outcome(m, AskForContent)
    else Outcome(AddNote(m, userId, Note(text, timestamp)), SavedReply(text))
  }

  /** `save_memo`: clean the message text, then store it for its author. */
  function SaveMemo(m: Memos, botId: string, msg: Message): Outcome {
    SaveText(m, msg.authorId, CleanMemoText(msg.content, botId), msg.createdAt)
  }

  /** `delete_memo`: with no memos nothing changes; otherwise the user's last
      memo is popped and reported, and a list left empty loses its key. */
  function DeleteMemo(m: Memos, userId: string): (o: Outcome)
    ensures NotesOf(m, userId) == [] ==> o == Outcome(m, NoMemos)
    ensures var notes := NotesOf(m, userId);
            notes != [] ==>
              && NotesOf(o.memos, userId) == notes[..|notes| - 1]
              && o.reply == DeletedReply(notes[|notes| - 1].content)
              && (userId in o.memos <==> |notes| > 1)
    ensures forall u :: u != userId ==> (u in o.memos <==> u in m) && NotesOf(o.memos, u) == NotesOf(m, u)
    ensures NoEmptyLists(m) ==> NoEmptyLists(o.memos)
  {
    var notes := NotesOf(m, userId);
    if notes == [] then Outcome(m, NoMemos)
    else
      var rest := notes[..|notes| - 1];
      var m' := if rest == [] then m - {userId} else m[userId := rest];
      Outcome(m', DeletedReply(notes[|notes| - 1].content))
  }

  /** Deleting right after a successful save undoes it and reports the saved text. */
  lemma SaveThenDelete(m: Memos, userId: string, text: string, timestamp: string)
    requires NoEmptyLists(m)
    requires text != ""
    ensures DeleteMemo(SaveText(m, userId, text, timestamp).memos, userId) == Outcome(m, DeletedReply(text))
  {
    var saved := SaveText(m, userId, text, timestamp).memos;
    var notes := NotesOf(saved, userId);
    var rest := notes[..|notes| - 1];
    assert rest == NotesOf(m, userId);
    if userId in m {
      assert saved[userId := rest] == m;
    } else {
      assert saved - {userId} == m;
    }
  }

  /** The entries of a listing numbered from `first`: `{i}. {content}` and a newline each. */
  function Entries(notes: seq<Note>, first: nat): string
    decreases |notes|
  {
    if notes == [] then "" else Entry(first, notes[0]) + Entries(notes[1..], first + 1)
  }

  /** One line of the listing: `f"{i}. {memo['content']}\n"`. */
  function Entry(n: nat, note: Note): string {
    NatToString(n) + ". " + note.content + "\n"
  }

  /** Appending a note appends one entry, numbered by its position. */
  lemma {:induction false} EntriesSnoc(notes: seq<Note>, note: Note, first: nat)
    ensures Entries(notes + [note], first) == Entries(notes, first) + Entry(first + |notes|, note)
    decreases |notes|
  {
    var last := Entry(first + |notes|, note);
    if notes == [] {
      assert Entries([note][1..], first + 1) == "";
      assert Entries([note], first) == last + "";
    } else {
      var all := notes + [note];
      assert all[0] == notes[0] && all[1..] == notes[1..] + [note];
      var head := Entry(first, notes[0]);
      EntriesSnoc(notes[1..], note, first + 1);
      calc {
        Entries(all, first);
        head + Entries(all[1..], first + 1);
        head + (Entries(notes[1..], first + 1) + last);
        (head + Entries(notes[1..], first + 1)) + last;
        Entries(notes, first) + last;
      }
    }
  }

  /** The first `n` characters, as `s[:n]` gives them. */
  function Truncate(s: string, n: nat): (r: string)
    ensures |r| <= n && |r| <= |s| && r == s[..|r|]
    ensures |s| <= n ==> r == s
    ensures |s| > n ==> r == s[..n]
  {
    if |s| <= n then s else s[..n]
  }

  /** `list_memos`: the numbered listing of the user's memos in insertion
      order, cut to Discord's 2000-character limit. */
  function ListMemos(m: Memos, userId: string): (reply: string)
    ensures |reply| <= MessageLimit
    ensures NotesOf(m, userId) == [] <==> reply == NoMemos
    ensures NotesOf(m, userId) != [] ==>
              var full := ListHeader + Entries(NotesOf(m, userId), 1);
              && |reply| <= |full| && reply == full[..|reply|]
              && (|full| <= MessageLimit ==> reply == full)
              && (|full| > MessageLimit ==> reply == full[..MessageLimit])
  {
    var notes := NotesOf(m, userId);
    if notes == [] then NoMemos
    else
      var reply := Truncate(ListHeader + Entries(notes, 1), MessageLimit);
      assert reply[..|ListHeader|] == ListHeader;
      assert NoMemos[0] != ListHeader[0];
      reply
  }

  /** After a successful save, the full listing ends with the new memo,
      numbered one past the memos the user already had. */
  lemma SaveThenListEndsWithNew(m: Memos, userId: string, text: string, timestamp: string)
    requires text != ""
    ensures var before := NotesOf(m, userId);
            Entries(NotesOf(SaveText(m, userId, text, timestamp).memos, userId), 1)
            == Entries(before, 1) + Entry(|before| + 1, Note(text, timestamp))
  {
    EntriesSnoc(NotesOf(m, userId), Note(text, timestamp), 1);
  }

  /** What the bot did with a message. */
  datatype Reaction = Ignored | Replied(text: string) | Conversed

  datatype Step = Step(memos: Memos, reaction: Reaction)

  /** The handler `handle_mention` picks for an action. Only saving and
      deleting touch the memos, and only the author's. */
  function Dispatch(m: Memos, botId: string, msg: Message, action: Action): (s: Step)
    ensures NoEmptyLists(m) ==> NoEmptyLists(s.memos)
    ensures s.memos != m ==> action == SaveNote || action == DeleteNote
    ensures s.reaction == Conversed <==> action == Converse
    ensures s.reaction != Ignored
    ensures action == SaveNote ==> var o := SaveMemo(m, botId, msg); s == Step(o.memos, Replied(o.reply))
    ensures action == DeleteNote ==> var o := DeleteMemo(m, msg.authorId); s == Step(o.memos, Replied(o.reply))
    ensures action == ListNotes ==> s == Step(m, Replied(ListMemos(m, msg.authorId)))
    ensures forall u :: u != msg.authorId ==> NotesOf(s.memos, u) == NotesOf(m, u)
  {
    match action
    case SaveNote =>
      var o := SaveMemo(m, botId, msg);
      Step(o.memos, Replied(o.reply))
    case DeleteNote =>
      var o := DeleteMemo(m, msg.authorId);
      Step(o.memos, Replied(o.reply))
    case ListNotes => Step(m, Replied(ListMemos(m, msg.authorId)))
    case Converse => Step(m, Conversed)
  }

  /** `on_message`: the bot's own messages and messages that do not mention
      it are ignored; a mention is routed and handled. */
  function OnMessage(m: Memos, botId: string, msg: Message): (s: Step)
    ensures s.reaction == Ignored <==> msg.fromSelf || !msg.mentionsBot
    ensures s.reaction == Ignored ==> s.memos == m
    ensures !msg.fromSelf && msg.mentionsBot ==> s == Dispatch(m, botId, msg, RouteText(WithoutMention(msg.content, botId)))
    ensures NoEmptyLists(m) ==> NoEmptyLists(s.memos)
    ensures s.memos != m ==> RouteText(WithoutMention(msg.content, botId)) in {SaveNote, DeleteNote}
    ensures s.reaction == Conversed ==> RouteText(WithoutMention(msg.content, botId)) == Converse
    ensures forall u :: u != msg.authorId ==> NotesOf(s.memos, u) == NotesOf(m, u)
  {
    if msg.fromSelf || !msg.mentionsBot then Step(m, Ignored)
    else Dispatch(m, botId, msg, RouteText(WithoutMention(msg.content, botId)))
  }

  /** A mention routed to saving stores its cleaned text at the end of the
      author's list and confirms it; with nothing left to store it asks for
      content and changes nothing. */
  lemma MentionedMemoIsSaved(m: Memos, botId: string, msg: Message)
    requires !msg.fromSelf && msg.mentionsBot
    ensures RouteText(WithoutMention(msg.content, botId)) == SaveNote ==>
              var s := OnMessage(m, botId, msg);
              var text := CleanMemoText(msg.content, botId);
              && (text == "" ==> s == Step(m, Replied(AskForContent)))
              && (text != "" ==> NotesOf(s.memos, msg.authorId) == NotesOf(m, msg.authorId) + [Note(text, msg.createdAt)]
                                 && s.reaction == Replied(SavedReply(text)))
  {
  }

  /** A mention that names a delete keyword and no memo keyword pops the
      author's newest memo and reports it. */
  lemma MentionedDeletePopsNewest(m: Memos, botId: string, msg: Message)
    requires !msg.fromSelf && msg.mentionsBot
    requires RouteText(WithoutMention(msg.content, botId)) == DeleteNote
    requires NotesOf(m, msg.authorId) != []
    ensures var s := OnMessage(m, botId, msg);
            var notes := NotesOf(m, msg.authorId);
            && NotesOf(s.memos, msg.authorId) == notes[..|notes| - 1]
            && s.reaction == Replied(DeletedReply(notes[|notes| - 1].content))
  {
  }
}
