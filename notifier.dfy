/** The Telegram notifier of `notifier.py`: the `.env` loader that runs when the module is
    imported, the enabled check, and the request `send_message` builds. The HTTP call itself is
    represented by the request it would make. */
module Notifier {
  import opened Wrappers
  import opened Text
  import opened Records
  import opened Storage
  import Monitor

  // ---------------------------------------------------------------------------------------
  // The .env loader

  /** `s.partition(sep)`: the text before the first `sep`, whether there was one, and the text
      after it. */
  function Partition(s: string, sep: char): (r: (string, bool, string))
    ensures !r.1 ==> r.0 == s && r.2 == "" && sep !in s
    ensures r.1 ==> s == r.0 + [sep] + r.2 && sep !in r.0
    decreases |s|
  {
    if s == [] then ("", false, "")
    else if s[0] == sep then
      assert s == [] + [sep] + s[1..];
      ("", true, s[1..])
    else
      var (a, found, b) := Partition(s[1..], sep);
      assert found ==> s == ([s[0]] + a) + [sep] + b;
      ([s[0]] + a, found, b)
  }

  /** One line of the file, its line break included. A blank line and one whose raw text starts
      with `#` are ignored; the others are split at the first `=` and applied only when both raw
      halves are non-empty, the key stripped and the value stripped, then stripped of `"` and then
      of `'`. */
  function ParseEnvLine(line: string): Option<(string, string)>
  {
    if Strip(line) == "" || StartsWith(line, "#") then None
    else
      var (key, _, value) := Partition(line, '=');
      if key != "" && value != "" then Some((Strip(key), StripChar(StripChar(Strip(value), '"'), '\''))) else None
  }

  /** A line with nothing but whitespace or a comment sets nothing. */
  lemma CommentAndBlankIgnored(line: string)
    requires StartsWith(line, "#") || forall k :: 0 <= k < |line| ==> IsSpace(line[k])
    ensures ParseEnvLine(line) == None
  {
    if !StartsWith(line, "#") {
      assert TrimLeft(line, IsSpace) == [];
    }
  }

  /** A line that starts with a visible character other than `#` is not skipped. */
  lemma LineNotSkipped(line: string)
    requires line != [] && !IsSpace(line[0]) && line[0] != '#'
    ensures Strip(line) != "" && !StartsWith(line, "#")
  {
    assert TrimLeft(line, IsSpace) == line;
    assert TrimRight(line, IsSpace) != [];
  }

  /** Partitioning at the first separator. */
  lemma {:induction false} PartitionAt(a: string, sep: char, b: string)
    requires sep !in a
    ensures Partition(a + [sep] + b, sep) == (a, true, b)
    decreases |a|
  {
    if a != [] {
      var s := a + [sep] + b;
      assert s[0] == a[0] && a[0] != sep;
      assert s[1..] == a[1..] + [sep] + b;
      PartitionAt(a[1..], sep, b);
      assert [a[0]] + a[1..] == a;
    } else {
      assert a + [sep] + b == [sep] + b;
    }
  }

  /** A value followed by the line break strips back to the value. */
  lemma StripLineBreak(value: string)
    requires value == [] || (!IsSpace(value[0]) && !IsSpace(value[|value| - 1]))
    ensures Strip(value + "\n") == value
  {
    var v := value + "\n";
    assert IsSpace(v[|v| - 1]) && v[..|v| - 1] == value;
    if value == [] {
      assert TrimLeft(v, IsSpace) == [];
    } else {
      assert v[0] == value[0];
      assert TrimLeft(v, IsSpace) == v;
      assert TrimRight(v, IsSpace) == TrimRight(value, IsSpace);
      StripWhereFixed(value, IsSpace);
    }
  }

  /** Trimming leaves a text alone when its two ends are kept. */
  lemma StripKeeps(s: string)
    requires s != [] && !IsSpace(s[0]) && !IsSpace(s[|s| - 1])
    ensures Strip(s) == s
  {
    StripWhereFixed(s, IsSpace);
  }

  /** Stripping a character leaves a text alone when neither end is that character. */
  lemma StripCharKeeps(s: string, c: char)
    requires s == [] || (s[0] != c && s[|s| - 1] != c)
    ensures StripChar(s, c) == s
  {
    StripWhereFixed(s, x => x == c);
  }

  /** A line that is not skipped and whose two raw halves are non-empty is applied. */
  lemma ParsedLine(line: string, key: string, raw: string)
    requires Strip(line) != "" && !StartsWith(line, "#")
    requires Partition(line, '=') == (key, true, raw) && key != "" && raw != ""
    ensures ParseEnvLine(line) == Some((Strip(key), StripChar(StripChar(Strip(raw), '"'), '\'')))
  {
  }

  /** A line without `=` sets nothing. */
  lemma NoSeparatorIgnored(line: string)
    requires '=' !in line
    ensures ParseEnvLine(line) == None
  {
    assert !Partition(line, '=').1;
  }

  /** A line whose raw key or raw value is empty sets nothing: `=x`, or `KEY=` as the file's last
      line with no line break after it. */
  lemma EmptyHalfIgnored(key: string, value: string)
    requires '=' !in key && (key == [] || value == [])
    ensures ParseEnvLine(key + "=" + value) == None
  {
    assert key + "=" + value == key + ['='] + value;
    PartitionAt(key, '=', value);
  }

  /** A `KEY=VALUE` line, key and value without edge spaces or quotes, sets KEY to VALUE; with an
      empty value it sets KEY to the empty string, since the raw value is then the line break,
      which is not empty. */
  lemma PlainAssignment(key: string, value: string)
    requires key != [] && key[0] != '#' && '=' !in key && !IsSpace(key[0]) && !IsSpace(key[|key| - 1])
    requires value == [] || (!IsSpace(value[0]) && !IsSpace(value[|value| - 1]))
    requires value == [] || (value[0] != '"' && value[|value| - 1] != '"' && value[0] != '\'' && value[|value| - 1] != '\'')
    ensures ParseEnvLine(key + "=" + value + "\n") == Some((key, value))
  {
    var line := key + "=" + value + "\n";
    assert line == key + ['='] + (value + "\n");
    assert line[0] == key[0];
    LineNotSkipped(line);
    PartitionAt(key, '=', value + "\n");
    StripKeeps(key);
    StripLineBreak(value);
    StripCharKeeps(value, '"');
    StripCharKeeps(value, '\'');
    ParsedLine(line, key, value + "\n");
  }

  /** Each line's effect, in file order. */
  function ParsedLines(lines: seq<string>): (es: seq<Option<(string, string)>>)
    ensures |es| == |lines|
    ensures forall i :: 0 <= i < |lines| ==> es[i] == ParseEnvLine(lines[i])
    decreases |lines|
  {
    if lines == [] then [] else ParsedLines(lines[..|lines| - 1]) + [ParseEnvLine(lines[|lines| - 1])]
  }

  /** The environment after the assignments, in order. */
  function ApplyEntries(env: map<string, string>, es: seq<Option<(string, string)>>): map<string, string>
    decreases |es|
  {
    if es == [] then env
    else
      var before := ApplyEntries(env, es[..|es| - 1]);
      match es[|es| - 1]
      case Some((k, v)) => before[k := v]
      case None => before
  }

  /** The environment after the lines of the file. */
  function ApplyLines(env: map<string, string>, lines: seq<string>): map<string, string> {
    ApplyEntries(env, ParsedLines(lines))
  }

  /** Among the assignments, the last one to a key decides its value. */
  lemma {:induction false} LastEntryWins(env: map<string, string>, es: seq<Option<(string, string)>>, j: nat, k: string, v: string)
    requires j < |es| && es[j] == Some((k, v))
    requires forall i :: j < i < |es| ==> es[i].None? || es[i].value.0 != k
    ensures k in ApplyEntries(env, es) && ApplyEntries(env, es)[k] == v
    decreases |es|
  {
    var init := es[..|es| - 1];
    if j < |es| - 1 {
      assert init[j] == es[j];
      LastEntryWins(env, init, j, k, v);
    }
  }

  /** The last line that sets a key decides its value. */
  lemma LastAssignmentWins(env: map<string, string>, lines: seq<string>, j: nat, k: string, v: string)
    requires j < |lines| && ParseEnvLine(lines[j]) == Some((k, v))
    requires forall i :: j < i < |lines| ==> ParseEnvLine(lines[i]).None? || ParseEnvLine(lines[i]).value.0 != k
    ensures k in ApplyLines(env, lines) && ApplyLines(env, lines)[k] == v
  {
    LastEntryWins(env, ParsedLines(lines), j, k, v);
  }

  /** Among the assignments, a key none of them sets keeps its old entry. */
  lemma {:induction false} UnsetEntryKept(env: map<string, string>, es: seq<Option<(string, string)>>, k: string)
    requires forall i :: 0 <= i < |es| ==> es[i].None? || es[i].value.0 != k
    ensures (k in ApplyEntries(env, es)) == (k in env)
    ensures k in env ==> ApplyEntries(env, es)[k] == env[k]
    decreases |es|
  {
    if es != [] {
      UnsetEntryKept(env, es[..|es| - 1], k);
    }
  }

  /** A key no line sets keeps whatever the environment had. */
  lemma UnsetKeyKept(env: map<string, string>, lines: seq<string>, k: string)
    requires forall i :: 0 <= i < |lines| ==> ParseEnvLine(lines[i]).None? || ParseEnvLine(lines[i]).value.0 != k
    ensures (k in ApplyLines(env, lines)) == (k in env)
    ensures k in env ==> ApplyLines(env, lines)[k] == env[k]
  {
    UnsetEntryKept(env, ParsedLines(lines), k);
  }

  /** One more line applies its entry. */
  lemma ApplyLinesNext(env: map<string, string>, lines: seq<string>, i: nat)
    requires i < |lines|
    ensures ApplyLines(env, lines[..i + 1]) ==
      match ParseEnvLine(lines[i])
      case Some((k, v)) => ApplyLines(env, lines[..i])[k := v]
      case None => ApplyLines(env, lines[..i])
  {
    assert lines[..i + 1][..i] == lines[..i];
    var es := ParsedLines(lines[..i + 1]);
    assert es[..i] == ParsedLines(lines[..i]);
  }

  /** The loop over the file's lines, writing into the process environment. */
  method LoadEnv(env0: map<string, string>, lines: seq<string>) returns (env: map<string, string>)
    ensures env == ApplyLines(env0, lines)
  {
    env := env0;
    for i := 0 to |lines|
      invariant env == ApplyLines(env0, lines[..i])
    {
      ApplyLinesNext(env0, lines, i);
      var line := lines[i];
      if Strip(line) != "" && !StartsWith(line, "#") {
        var (key, _, value) := Partition(line, '=');
        if key != "" && value != "" {
          env := env[Strip(key) := StripChar(StripChar(Strip(value), '"'), '\'')];
        }
      }
    }
    assert lines[..|lines|] == lines;
  }

  // ---------------------------------------------------------------------------------------
  // The notifier

  const TOKEN_VAR: string := "TELEGRAM_BOT_TOKEN"
  const CHAT_VAR: string := "TELEGRAM_CHAT_ID"
  const API_BASE: string := "https://api.telegram.org/bot"

  datatype TelegramNotifier = TelegramNotifier(botToken: Option<string>, chatId: Option<string>)

  function Lookup(env: map<string, string>, k: string): (r: Option<string>)
    ensures r.Some? <==> k in env
    ensures r.Some? ==> r.value == env[k]
  {
    if k in env then Some(env[k]) else None
  }

  /** The constructor reads the two variables. */
  function NewNotifier(env: map<string, string>): (n: TelegramNotifier)
    ensures n.botToken == Lookup(env, TOKEN_VAR) && n.chatId == Lookup(env, CHAT_VAR)
  {
    TelegramNotifier(Lookup(env, TOKEN_VAR), Lookup(env, CHAT_VAR))
  }

  predicate Enabled(n: TelegramNotifier) {
    Truthy(n.botToken) && Truthy(n.chatId)
  }

  /** Enabled exactly when both variables are set to something non-empty. */
  lemma EnabledIff(env: map<string, string>)
    ensures Enabled(NewNotifier(env)) <==>
      TOKEN_VAR in env && env[TOKEN_VAR] != "" && CHAT_VAR in env && env[CHAT_VAR] != ""
  {
  }

  datatype Payload = Payload(chatId: string, text: string, parseMode: string, disableNotification: bool)
  datatype Request = Request(url: string, payload: Payload)

  /** What one call does: the POST it makes (none in mock mode) and the value it returns. */
  datatype SendResult = SendResult(request: Option<Request>, returned: Option<bool>)

  /** `send_message`: in mock mode nothing is posted; otherwise an HTML message to the chat,
      silent unless it is a priority one. Whatever the HTTP outcome, the call returns None. */
  function SendMessage(n: TelegramNotifier, text: string, priority: bool): (r: SendResult)
    ensures r.returned == None
    ensures r.request.None? <==> !Enabled(n)
    ensures r.request.Some? ==>
      r.request.value.url == API_BASE + n.botToken.value + "/sendMessage"
      && r.request.value.payload == Payload(n.chatId.value, text, "HTML", !priority)
  {
    if !Enabled(n) then SendResult(None, None)
    else
      var payload := Payload(n.chatId.value, text, "HTML", !priority);
      SendResult(Some(Request(API_BASE + n.botToken.value + "/sendMessage", payload)), None)
  }

  /** This notifier as the bool-valued send the monitors call, `render` giving each notice's text
      and priority: `if send_message(...)` sees None, which is false. */
  function AsSend(n: TelegramNotifier, render: Notice -> (string, bool)): Send {
    x => SendMessage(n, render(x).0, render(x).1).returned == Some(true)
  }

  /** No notice is ever confirmed. */
  lemma NeverConfirms(n: TelegramNotifier, render: Notice -> (string, bool), x: Notice)
    ensures !AsSend(n, render)(x)
  {
    var r := SendMessage(n, render(x).0, render(x).1);
    assert r.returned == None;
    assert AsSend(n, render)(x) == (r.returned == Some(true));
  }

  /** Paired with the monitor of `ozbargain/core/monitor.py`, which logs a trending alert only
      on a confirmed send, this notifier makes every trending pass log nothing, so each pass
      notifies every candidate again. */
  lemma TrendingNeverLogged(t: Tables, cands: seq<TrendingDeal>, n: TelegramNotifier, render: Notice -> (string, bool))
    ensures Monitor.TrendingAlerts(t, cands, AsSend(n, render)).0 == t
    ensures forall c :: c in cands && (c.id, TRENDING) !in t.alerts ==>
      Notice(c.id, TRENDING) in Monitor.TrendingAlerts(t, cands, AsSend(n, render)).1
  {
    var send := AsSend(n, render);
    forall x ensures !send(x) {
      NeverConfirms(n, render, x);
    }
    Monitor.TrendingAlertsLedger(t, cands, send);
    Monitor.TrendingAlertsNotices(t, cands, send);
    assert Monitor.TrendingDelivered(cands, send) == {};
    assert t.(alerts := t.alerts + {}) == t;
  }
}
