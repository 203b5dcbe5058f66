/** The request path of the Cloudflare worker: the `fetch` routing, the
    header check before signature verification, the interaction-type switch,
    and the slash-command handlers over the memo table. The Ed25519 check,
    the Discord history fetch and the Gemini calls are not modelled; their
    results are inputs. */
module Worker {
  import opened Values
  import opened Text
  import Gemini
  import Prompt
  import MemoTable

  // ---------------------------------------------------------------------
  // Interactions

  /** An option value as Discord sends it: a string or an integer. */
  datatype OptionValue = Str(s: string) | Int(n: int)

  datatype CommandOption = CommandOption(name: string, value: OptionValue)

  datatype User = User(id: Option<string>, username: Option<string>)

  datatype Member = Member(nick: Option<string>, user: Option<User>)

  /** The parts of an interaction payload the worker reads: `type`,
      `data.name`, `data.options`, `member` and `user`. */
  datatype Interaction = Interaction(
    kind: int,
    name: string,
    options: Option<seq<CommandOption>>,
    member: Option<Member>,
    user: Option<User>)

  /** What the handlers would learn from outside the worker: the persona
      prompt, the channel history `fetchRecentMessages` would return (oldest
      first, nicknames resolved), what each Gemini model would answer to a
      given prompt, whether the database accepts statements, and its clock. */
  datatype Env = Env(
    systemPrompt: string,
    history: seq<Prompt.HistoryMessage>,
    ai: string -> Gemini.ModelOutcomes,
    storageUp: bool,
    now: int)

  /** JavaScript truthiness of an option value: `''` and `0` are falsy. */
  predicate IsTruthy(v: OptionValue) {
    match v
    case Str(s) => s != ""
    case Int(n) => n != 0
    }

  /** How a template literal renders an option value. */
  function ValueText(v: OptionValue): string {
    match v
    case Str(s) => s
    case Int(n) => IntToString(n)
  }

  /** `options.find(opt => opt.name === name)?.value`: the value of the first option so named. */
  function FindIn(options: seq<CommandOption>, name: string): (v: Option<OptionValue>)
    ensures v.Some? <==> exists k :: 0 <= k < |options| && options[k].name == name
    ensures v.Some? ==> exists k :: 0 <= k < |options| && options[k] == CommandOption(name, v.value)
                                   && forall j :: 0 <= j < k ==> options[j].name != name
  {
    if options == [] then None
    else if options[0].name == name then Some(options[0].value)
    else
      var rest := FindIn(options[1..], name);
      assert forall k :: 1 <= k < |options| ==> options[k] == options[1..][k - 1];
      rest
  }

  /** `options?.find(...)?.value`: nothing when the interaction carries no options. */
  function FindOption(options: Option<seq<CommandOption>>, name: string): Option<OptionValue> {
    if options.None? then None else FindIn(options.value, name)
  }

  /** A required option that is present and truthy, if any. */
  function RequiredOption(options: Option<seq<CommandOption>>, name: string): (v: Option<OptionValue>)
    ensures v.Some? ==> IsTruthy(v.value) && v == FindOption(options, name)
    ensures v.None? <==> FindOption(options, name).None? || !IsTruthy(FindOption(options, name).value)
  {
    var found := FindOption(options, name);
    if found.Some? && IsTruthy(found.value) then found else None
  }

  /** `member?.user?.id`: the id of the guild member's user, if any. */
  function MemberUserId(i: Interaction): Option<string> {
    if i.member.Some? && i.member.value.user.Some? then i.member.value.user.value.id else None
  }

  /** `member?.nick`. */
  function MemberNick(i: Interaction): Option<string> {
    if i.member.Some? then i.member.value.nick else None
  }

  /** `member?.user?.username`. */
  function MemberUserName(i: Interaction): Option<string> {
    if i.member.Some? && i.member.value.user.Some? then i.member.value.user.value.username else None
  }

  /** `user?.username`. */
  function UserName(i: Interaction): Option<string> {
    if i.user.Some? then i.user.value.username else None
  }

  /** `member?.user?.id || user?.id`: a guild member's id, else the user's id
      as given, which may be empty or missing. */
  function UserId(i: Interaction): (id: Option<string>)
    ensures Truthy(MemberUserId(i)) ==> id == MemberUserId(i)
    ensures !Truthy(MemberUserId(i)) && i.user.Some? ==> id == i.user.value.id
    ensures !Truthy(MemberUserId(i)) && i.user.None? ==> id == None
    ensures Truthy(id) ==> (i.member.Some? && i.member.value.user.Some? && id == i.member.value.user.value.id)
                           || (i.user.Some? && id == i.user.value.id)
  {
    var memberId := MemberUserId(i);
    if Truthy(memberId) then memberId
    else if i.user.Some? then i.user.value.id
    else None
  }

  /** `member?.nick || member?.user?.username || user?.username || 'User'`:
      the first non-empty name in that order. */
  function CurrentNickname(i: Interaction): (nick: string)
    ensures nick != ""
    ensures Truthy(MemberNick(i)) ==> nick == MemberNick(i).value
    ensures !Truthy(MemberNick(i)) && Truthy(MemberUserName(i)) ==> nick == MemberUserName(i).value
    ensures !Truthy(MemberNick(i)) && !Truthy(MemberUserName(i)) && Truthy(UserName(i)) ==> nick == UserName(i).value
    ensures !Truthy(MemberNick(i)) && !Truthy(MemberUserName(i)) && !Truthy(UserName(i)) ==> nick == "User"
  {
    OrElse(MemberNick(i), OrElse(MemberUserName(i), OrElse(UserName(i), "User")))
  }

  // ---------------------------------------------------------------------
  // Responses

  /** An interaction response: `{type: 1}` or `{type: 4, data: {content, flags}}`. */
  datatype Payload = Pong | ChannelMessage(content: string, flags: int)

  datatype HttpResponse = Plain(status: int, body: string) | Json(payload: Payload)

  const EphemeralFlag: int := 64

  /** `createResponse(content, ephemeral)`: a channel message, flagged 64 when only the caller sees it. */
  function CreateResponse(content: string, ephemeral: bool): (p: Payload)
    ensures p.ChannelMessage? && p.content == content
    ensures p.flags == 0 || p.flags == EphemeralFlag
    ensures p.flags == EphemeralFlag <==> ephemeral
  {
    ChannelMessage(content, if ephemeral then EphemeralFlag else 0)
  }

  /** Every handler reply is public. */
  function Reply(content: string): Payload {
    CreateResponse(content, false)
  }

  const UnknownCommand: string := "不明なコマンドです。"
  const MemoMissing: string := "なんか書けや。知らんけど。"
  const MemoSaveFailed: string := "あー面倒くせぇ。メモ保存できんかったわ。もう一回やり直して。俺は知らんけんね。"
  const ListEmpty: string := "メモなんか一個もないやん。なんも書いとらんのに見るもんないやろ。知らんけど。"
  const ListFailed: string := "メモ見ようとしたけど、なんかエラー出たわ。俺管理せんけん。もう一回やって。"
  const DeleteMissing: string := "ID書けや。何消したいんか分からんやろ。ふぇっふぁっふぁぇっ。"
  const DeleteFailed: string := "削除しようとしたけど失敗したわ。俺のせいじゃないけんね。しゃーしー。"
  const ComponentAck: string := "コンポーネントのインタラクションを受け取りました。"
  const GoriMissing: string := "なんか言えや。知らんけど。"

  function MemoSaved(content: string): string {
    "はいはい、メモっといたけんね。「" + content + "」って。\nまぁ後で見るかどうかは知らんけど。じゃ、俺帰るけん。"
  }

  function ListShown(listing: string): string {
    "あー面倒くせぇけど、一応メモ見せたるわ。\n\n" + listing + "\n\nほら、これでいい？俺もう帰るけん。あとよろしくぅ。"
  }

  function DeleteNotFound(id: string): string {
    "ID:" + id + "？そんなメモないけど。俺そんなこと言ったっけ。知らんけんね。"
  }

  function DeleteDone(id: string): string {
    "はいはい、ID:" + id + "のメモ消しといたけん。\nまぁ消したところで俺は困らんけど。じゃ、先帰るけん。"
  }

  // ---------------------------------------------------------------------
  // Listing text

  /** One entry of the listing: `${n}. [ID:${id}] ${content}`. */
  function ListEntry(n: nat, row: MemoTable.Row): string {
    NatToString(n) + ". [ID:" + IntToString(row.id) + "] " + row.content
  }

  /** The entries numbered from `first`, joined with newlines. */
  function ListingFrom(rows: seq<MemoTable.Row>, first: nat): string
    decreases |rows|
  {
    if rows == [] then ""
    else if |rows| == 1 then ListEntry(first, rows[0])
    else ListEntry(first, rows[0]) + "\n" + ListingFrom(rows[1..], first + 1)
  }

  /** `results.map((memo, index) => ...).join('\n')`. */
  function Listing(rows: seq<MemoTable.Row>): string {
    ListingFrom(rows, 1)
  }

  /** Appending a row appends one more entry, numbered by its position. */
  lemma {:induction false} ListingFromSnoc(rows: seq<MemoTable.Row>, row: MemoTable.Row, first: nat)
    requires rows != []
    ensures ListingFrom(rows + [row], first) == ListingFrom(rows, first) + "\n" + ListEntry(first + |rows|, row)
    decreases |rows|
  {
    assert (rows + [row])[0] == rows[0];
    assert (rows + [row])[1..] == rows[1..] + [row];
    if |rows| > 1 {
      ListingFromSnoc(rows[1..], row, first + 1);
    }
  }

  /** The listing numbers entries from 1 in the order the rows come. */
  lemma {:induction false} ListingNumbersInOrder(rows: seq<MemoTable.Row>)
    ensures rows != [] ==>
              Listing(rows) == (if |rows| == 1 then "" else Listing(rows[..|rows| - 1]) + "\n")
                               + ListEntry(|rows|, rows[|rows| - 1])
  {
    if |rows| > 1 {
      var init := rows[..|rows| - 1];
      assert rows == init + [rows[|rows| - 1]];
      ListingFromSnoc(init, rows[|rows| - 1], 1);
    }
  }

  // ---------------------------------------------------------------------
  // Command handlers

  /** A handler's reply and the table after it. */
  datatype Handled = Handled(reply: Payload, table: MemoTable.Table)

  /** `handleMemoCommand`: validate `content`, then insert it for the user. A
      missing user id makes the statement fail like any storage error. */
  function HandleMemo(options: Option<seq<CommandOption>>, userId: Option<string>, t: MemoTable.Table, env: Env): (h: Handled)
    ensures RequiredOption(options, "content").None? ==> h == Handled(Reply(MemoMissing), t)
    ensures RequiredOption(options, "content").Some? && (!env.storageUp || userId.None?) ==>
              h == Handled(Reply(MemoSaveFailed), t)
    ensures RequiredOption(options, "content").Some? && env.storageUp && userId.Some? ==>
              var content := ValueText(RequiredOption(options, "content").value);
              && |h.table| == |t| + 1 && h.table[..|t|] == t
              && h.table[|t|].userId == userId.value && h.table[|t|].content == content
              && h.table[|t|].createdAt == env.now
              && (forall r :: r in t ==> r.id != h.table[|t|].id)
              && h.reply == Reply(MemoSaved(content))
    ensures h.reply != Reply(UnknownCommand)
    ensures MemoTable.UniqueIds(t) ==> MemoTable.UniqueIds(h.table)
  {
    var content := RequiredOption(options, "content");
    if content.None? then Handled(Reply(MemoMissing), t)
    else if !env.storageUp || userId.None? then Handled(Reply(MemoSaveFailed), t)
    else
      var text := ValueText(content.value);
      Handled(Reply(MemoSaved(text)), MemoTable.Insert(t, userId.value, text, env.now))
  }

  /** `handleListCommand`: the user's ten newest memos, numbered, or a "none" reply. */
  function HandleList(userId: Option<string>, t: MemoTable.Table, env: Env): (h: Handled)
    ensures h.table == t
    ensures (!env.storageUp || userId.None?) ==> h.reply == Reply(ListFailed)
    ensures env.storageUp && userId.Some? ==>
              (h.reply == Reply(ListEmpty) <==> MemoTable.RowsOf(t, userId.value) == [])
    ensures env.storageUp && userId.Some? && h.reply != Reply(ListEmpty) ==>
              exists listed :: MemoTable.IsRecentListing(t, userId.value, listed)
                               && h.reply == Reply(ListShown(Listing(listed)))
    ensures h.reply != Reply(UnknownCommand)
  {
    if !env.storageUp || userId.None? then Handled(Reply(ListFailed), t)
    else
      var listed := MemoTable.Recent(t, userId.value);
      if listed == [] then Handled(Reply(ListEmpty), t)
      else Handled(Reply(ListShown(Listing(listed))), t)
  }

  /** `handleDeleteCommand`: validate `id`, then delete the row with that id
      only if it belongs to the user. */
  function HandleDelete(options: Option<seq<CommandOption>>, userId: Option<string>, t: MemoTable.Table, env: Env): (h: Handled)
    ensures RequiredOption(options, "id").None? ==> h == Handled(Reply(DeleteMissing), t)
    ensures RequiredOption(options, "id").Some? && (!env.storageUp || userId.None?) ==>
              h == Handled(Reply(DeleteFailed), t)
    ensures forall other :: userId != Some(other) ==> MemoTable.RowsOf(h.table, other) == MemoTable.RowsOf(t, other)
    ensures forall r :: r in h.table ==> r in t
    ensures env.storageUp && userId.Some? && RequiredOption(options, "id").Some? ==>
              var v := RequiredOption(options, "id").value;
              var removed := v.Int? && exists r :: r in t && MemoTable.Matches(r, v.n, userId.value);
              && (v.Int? ==> forall r :: r in h.table <==> r in t && !MemoTable.Matches(r, v.n, userId.value))
              && (removed ==> |h.table| < |t| && h.reply == Reply(DeleteDone(ValueText(v))))
              && (!removed ==> h.reply == Reply(DeleteNotFound(ValueText(v))) && h.table == t)
    ensures h.reply != Reply(UnknownCommand)
  {
    var id := RequiredOption(options, "id");
    if id.None? then Handled(Reply(DeleteMissing), t)
    else if !env.storageUp || userId.None? then Handled(Reply(DeleteFailed), t)
    else
      var key := ValueText(id.value);
      match id.value
      case Int(n) =>
        var d := MemoTable.Delete(t, n, userId.value);
        forall other | userId != Some(other)
          ensures MemoTable.RowsOf(d.rows, other) == MemoTable.RowsOf(t, other)
        {
          MemoTable.DeleteSparesOtherUsers(t, n, userId.value, other);
        }
        if d.changes == 0 then
          DeleteNothingKeepsTable(t, n, userId.value);
          Handled(Reply(DeleteNotFound(key)), d.rows)
        else Handled(Reply(DeleteDone(key)), d.rows)
      case Str(_) =>
        Handled(Reply(DeleteNotFound(key)), t)
  }

  /** A DELETE that matched nothing leaves the table as it was. */
  lemma {:induction false} DeleteNothingKeepsTable(t: MemoTable.Table, id: int, userId: string)
    requires MemoTable.Delete(t, id, userId).changes == 0
    ensures MemoTable.Delete(t, id, userId).rows == t
  {
    if t != [] {
      DeleteNothingKeepsTable(t[1..], id, userId);
    }
  }

  /** `handleGoriCommand`: validate `message`, build the context prompt and
      reply with whatever the model cascade produces. */
  function HandleGori(options: Option<seq<CommandOption>>, i: Interaction, t: MemoTable.Table, env: Env): (h: Handled)
    ensures h.table == t
    ensures RequiredOption(options, "message").None? ==> h.reply == Reply(GoriMissing)
    ensures RequiredOption(options, "message").Some? ==>
              var prompt := Prompt.BuildContextPrompt(env.systemPrompt, env.history,
                                                      ValueText(RequiredOption(options, "message").value), CurrentNickname(i));
              var g := Gemini.GenerateAIResponse(env.ai(prompt));
              h.reply == Reply(if g.Answered? then g.text else Gemini.FallbackReply)
  {
    var message := RequiredOption(options, "message");
    if message.None? then Handled(Reply(GoriMissing), t)
    else
      var prompt := Prompt.BuildContextPrompt(env.systemPrompt, env.history, ValueText(message.value), CurrentNickname(i));
      Handled(Reply(Gemini.ReplyText(Gemini.GenerateAIResponse(env.ai(prompt)))), t)
  }

  /** The command names `handleCommand` routes, after lower-casing. */
  predicate IsRoutedCommand(command: string) {
    command == "memo" || command == "list" || command == "delete" || command == "gori" || command == "ゴリ"
  }

  /** `handleCommand`: lower-case the name and switch on it. */
  function HandleCommand(i: Interaction, t: MemoTable.Table, env: Env): (h: Handled)
    ensures AsciiLower(i.name) == "memo" ==> h == HandleMemo(i.options, UserId(i), t, env)
    ensures AsciiLower(i.name) == "list" ==> h == HandleList(UserId(i), t, env)
    ensures AsciiLower(i.name) == "delete" ==> h == HandleDelete(i.options, UserId(i), t, env)
    ensures AsciiLower(i.name) in {"gori", "ゴリ"} ==> h == HandleGori(i.options, i, t, env)
    ensures !IsRoutedCommand(AsciiLower(i.name)) ==> h == Handled(Reply(UnknownCommand), t)
    ensures IsRoutedCommand(AsciiLower(i.name)) && AsciiLower(i.name) !in {"gori", "ゴリ"} ==>
              h.reply != Reply(UnknownCommand)
    ensures AsciiLower(i.name) != "memo" && AsciiLower(i.name) != "delete" ==> h.table == t
    ensures forall r :: r in t ==> r in h.table || AsciiLower(i.name) == "delete"
  {
    var userId := UserId(i);
    var command := AsciiLower(i.name);
    if command == "memo" then HandleMemo(i.options, userId, t, env)
    else if command == "list" then HandleList(userId, t, env)
    else if command == "delete" then HandleDelete(i.options, userId, t, env)
    else if command == "gori" || command == "ゴリ" then HandleGori(i.options, i, t, env)
    else Handled(Reply(UnknownCommand), t)
  }

  /** `gori` replies with whatever the first model completes, so its reply
      can be any non-empty text, the unknown-command reply included. */
  lemma GoriRepliesWithFirstCompletion(i: Interaction, t: MemoTable.Table, env: Env, text: string)
    requires AsciiLower(i.name) == "gori"
    requires RequiredOption(i.options, "message").Some?
    requires text != ""
    requires env.ai(Prompt.BuildContextPrompt(env.systemPrompt, env.history,
                                              ValueText(RequiredOption(i.options, "message").value),
                                              CurrentNickname(i)))[0] == Gemini.Completed(Some(text))
    ensures HandleCommand(i, t, env) == Handled(Reply(text), t)
  {
  }

  /** `godgori` is registered as a command but has no case of its own. */
  lemma GodgoriIsUnknown(i: Interaction, t: MemoTable.Table, env: Env)
    requires AsciiLower(i.name) == "godgori"
    ensures HandleCommand(i, t, env) == Handled(Reply(UnknownCommand), t)
  {
  }

  /** Command names are matched case-insensitively. */
  lemma CommandNameCaseInsensitive(i: Interaction, t: MemoTable.Table, env: Env)
    ensures HandleCommand(i, t, env) == HandleCommand(i.(name := AsciiLower(i.name)), t, env)
  {
    AsciiLowerIdempotent(i.name);
  }

  // ---------------------------------------------------------------------
  // Webhook and routing

  /** An inbound HTTP request: its path and method (`verb`), the two signature
      headers, and the interaction its body parses to (none when the body
      is not JSON). */
  datatype Request = Request(
    path: string,
    verb: string,
    signature: Option<string>,
    timestamp: Option<string>,
    body: Option<Interaction>)

  /** `verifyDiscordRequest`: a missing or empty header fails at once; otherwise
      the Ed25519 check decides, and `signatureValid` is its verdict (an
      exception inside it counts as `false`). */
  function VerifyRequest(signature: Option<string>, timestamp: Option<string>, signatureValid: bool): (ok: bool)
    ensures ok ==> Truthy(signature) && Truthy(timestamp)
    ensures ok ==> signatureValid
    ensures Truthy(signature) && Truthy(timestamp) && signatureValid ==> ok
  {
    if !Truthy(signature) || !Truthy(timestamp) then false else signatureValid
  }

  /** The response and the table after one request. */
  datatype Served = Served(response: HttpResponse, table: MemoTable.Table)

  /** `handleDiscordWebhook`: verify, parse, and switch on the interaction type. */
  function HandleWebhook(req: Request, t: MemoTable.Table, env: Env, signatureValid: bool): (s: Served)
    ensures !VerifyRequest(req.signature, req.timestamp, signatureValid) ==> s == Served(Plain(401, "Unauthorized"), t)
    ensures s.table != t ==> req.body.Some? && req.body.value.kind == 2
    ensures VerifyRequest(req.signature, req.timestamp, signatureValid) ==>
              match req.body
              case None => s == Served(Plain(500, "Internal Server Error"), t)
              case Some(i) =>
                if i.kind == 1 then s == Served(Json(Pong), t)
                else if i.kind == 2 then
                  s == Served(Json(HandleCommand(i, t, env).reply), HandleCommand(i, t, env).table)
                else if i.kind == 3 then s == Served(Json(Reply(ComponentAck)), t)
                else s == Served(Plain(200, "OK"), t)
  {
    if !VerifyRequest(req.signature, req.timestamp, signatureValid) then Served(Plain(401, "Unauthorized"), t)
    else if req.body.None? then Served(Plain(500, "Internal Server Error"), t)
    else
      var i := req.body.value;
      if i.kind == 1 then Served(Json(Pong), t)
      else if i.kind == 2 then
        var h := HandleCommand(i, t, env);
        Served(Json(h.reply), h.table)
      else if i.kind == 3 then Served(Json(Reply(ComponentAck)), t)
      else Served(Plain(200, "OK"), t)
  }

  /** The worker's `fetch`: `POST /discord` is the webhook, `/health` answers
      "OK" to any method, and everything else is 404. */
  function Fetch(req: Request, t: MemoTable.Table, env: Env, signatureValid: bool): (s: Served)
    ensures req.path == "/discord" && req.verb == "POST" ==> s == HandleWebhook(req, t, env, signatureValid)
    ensures !(req.path == "/discord" && req.verb == "POST") ==> s.table == t
    ensures req.path == "/health" ==> s == Served(Plain(200, "OK"), t)
    ensures req.path != "/discord" && req.path != "/health" ==> s == Served(Plain(404, "Not Found"), t)
    ensures req.path == "/discord" && req.verb != "POST" ==> s == Served(Plain(404, "Not Found"), t)
    ensures (!Truthy(req.signature) || !Truthy(req.timestamp)) && req.path != "/health" ==>
              s.table == t && (s.response == Plain(401, "Unauthorized") || s.response == Plain(404, "Not Found"))
  {
    if req.path == "/discord" && req.verb == "POST" then HandleWebhook(req, t, env, signatureValid)
    else if req.path == "/health" then Served(Plain(200, "OK"), t)
    else Served(Plain(404, "Not Found"), t)
  }

  /** A request without both signature headers changes nothing, whatever the
      signature check would have said. */
  lemma MissingHeadersRejected(req: Request, t: MemoTable.Table, env: Env, signatureValid: bool)
    requires !Truthy(req.signature) || !Truthy(req.timestamp)
    requires req.path == "/discord" && req.verb == "POST"
    ensures Fetch(req, t, env, signatureValid) == Served(Plain(401, "Unauthorized"), t)
  {
  }
}
