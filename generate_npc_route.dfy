/**
 * app/api/generate-npc/route.ts: ask the language model for an NPC sheet
 * in JSON, strip Markdown code fences from its reply, parse it and check
 * its shape.
 *
 * The model call and `JSON.parse` are parameters: `reply` is the text the
 * model returned (`None` when the call failed), `parse` maps a text to its
 * value (`None` when it would throw).
 */
module GenerateNpcRoute {
  import opened Wrappers
  import opened JsonValues
  import opened Store

  type Parser = string -> Option<Json>

  const ThemeRequired := "Tema é obrigatório"
  const ApiKeyMissing := "GEMINI_API_KEY não configurada"
  const ParseFailed := "Erro ao processar resposta da IA"
  const InvalidShape := "Resposta da IA em formato inválido"
  const InternalError := "Erro interno do servidor"

  const JsonFence := "```json"
  const Fence := "```"

  /**
   * `s.replace(/marker\n?/g, '')`: scanning left to right, every occurrence
   * of `marker` is removed together with one newline right after it.
   */
  function RemoveAll(s: string, marker: string): (r: string)
    requires marker != []
    ensures |r| <= |s|
    decreases |s|
  {
    if s == [] then []
    else if StartsWith(s, marker) then
      var after := s[|marker|..];
      if after != [] && after[0] == '\n' then RemoveAll(after[1..], marker) else RemoveAll(after, marker)
    else [s[0]] + RemoveAll(s[1..], marker)
  }

  /** No occurrence of `marker` starts at any of the first `n` positions of `s`. */
  predicate NoMatchBefore(s: string, n: nat, marker: string)
    requires n <= |s|
  {
    forall i :: 0 <= i < n ==> !StartsWith(s[i..], marker)
  }

  /** A text in which no code fence starts anywhere. */
  predicate FenceFree(s: string) {
    NoMatchBefore(s, |s|, Fence)
  }

  /** A text shorter than the marker cannot hold it. */
  lemma {:induction false} RemoveAllShort(s: string, marker: string)
    requires marker != [] && |s| < |marker|
    ensures RemoveAll(s, marker) == s
  {
    if s != [] {
      RemoveAllShort(s[1..], marker);
    }
  }

  /** A left piece in which no match starts, even one running on into the right piece, is kept. */
  lemma {:induction false} RemoveAllUntouched(a: string, b: string, marker: string)
    requires marker != [] && NoMatchBefore(a + b, |a|, marker)
    ensures RemoveAll(a + b, marker) == a + RemoveAll(b, marker)
    decreases |a|
  {
    if a != [] {
      assert (a + b)[0..] == a + b;
      assert (a + b)[1..] == a[1..] + b;
      forall i | 0 <= i < |a[1..]|
        ensures !StartsWith((a[1..] + b)[i..], marker)
      {
        assert (a[1..] + b)[i..] == (a + b)[i + 1..];
      }
      RemoveAllUntouched(a[1..], b, marker);
      assert [a[0]] + a[1..] == a;
    } else {
      assert a + b == b;
    }
  }

  /** A text in which no match starts is left as it is. */
  lemma RemoveAllNone(s: string, marker: string)
    requires marker != [] && NoMatchBefore(s, |s|, marker)
    ensures RemoveAll(s, marker) == s
  {
    assert s + [] == s;
    RemoveAllUntouched(s, [], marker);
  }

  /** `String.prototype.trim`'s set: ECMAScript white space and line terminators. */
  predicate IsJsWhitespace(c: char) {
    || c == '\t' || c == '\n' || c == '\U{000B}' || c == '\U{000C}' || c == '\r' || c == ' '
    || c == '\U{00A0}' || c == '\U{1680}' || ('\U{2000}' <= c <= '\U{200A}')
    || c == '\U{2028}' || c == '\U{2029}' || c == '\U{202F}' || c == '\U{205F}'
    || c == '\U{3000}' || c == '\U{FEFF}'
  }

  function TrimStart(s: string): (r: string)
    ensures |r| <= |s| && r == s[|s| - |r|..]
    ensures forall i :: 0 <= i < |s| - |r| ==> IsJsWhitespace(s[i])
    ensures r != [] ==> !IsJsWhitespace(r[0])
  {
    if s != [] && IsJsWhitespace(s[0]) then TrimStart(s[1..]) else s
  }

  function TrimEnd(s: string): (r: string)
    ensures |r| <= |s| && r == s[..|r|]
    ensures forall i :: |r| <= i < |s| ==> IsJsWhitespace(s[i])
    ensures r != [] ==> !IsJsWhitespace(r[|r| - 1])
  {
    if s != [] && IsJsWhitespace(s[|s| - 1]) then TrimEnd(s[..|s| - 1]) else s
  }

  /** `s.trim()`: the text between the leading and the trailing white space. */
  function Trim(s: string): (r: string)
    ensures exists i, j ::
              && 0 <= i <= j <= |s| && r == s[i..j]
              && (forall k :: 0 <= k < i ==> IsJsWhitespace(s[k]))
              && (forall k :: j <= k < |s| ==> IsJsWhitespace(s[k]))
    ensures r != [] ==> !IsJsWhitespace(r[0]) && !IsJsWhitespace(r[|r| - 1])
  {
    var start := TrimStart(s);
    var r := TrimEnd(start);
    assert r == s[|s| - |start|..|s| - |start| + |r|];
    r
  }

  /** Trailing white space never survives trimming. */
  lemma {:induction false} TrimEndAppendWhitespace(s: string, c: char)
    requires IsJsWhitespace(c)
    ensures TrimEnd(s + [c]) == TrimEnd(s)
  {
  }

  lemma {:induction false} TrimStartAppendWhitespace(s: string, c: char)
    requires IsJsWhitespace(c)
    ensures TrimStart(s + [c]) == TrimStart(s) + [c] || (TrimStart(s) == [] && TrimStart(s + [c]) == [])
  {
    if s != [] && IsJsWhitespace(s[0]) {
      assert (s + [c])[1..] == s[1..] + [c];
      TrimStartAppendWhitespace(s[1..], c);
    } else if s == [] {
      assert s + [c] == [c];
      assert [c][1..] == [];
    }
  }

  lemma TrimAppendWhitespace(s: string, c: char)
    requires IsJsWhitespace(c)
    ensures Trim(s + [c]) == Trim(s)
  {
    TrimStartAppendWhitespace(s, c);
    if TrimStart(s + [c]) == TrimStart(s) + [c] {
      TrimEndAppendWhitespace(TrimStart(s), c);
    }
  }

  /** The text handed to `JSON.parse`: both kinds of fence removed, then trimmed. */
  function StripFences(text: string): (cleaned: string)
    ensures |cleaned| <= |text|
  {
    Trim(RemoveAll(RemoveAll(text, JsonFence), Fence))
  }

  /**
   * A reply wrapped in a `json` code block parses as the bare reply would:
   * for a body in which no fence starts, the fences and the newlines they
   * own disappear and the trailing newline is trimmed.
   */
  lemma FencedReply(body: string)
    requires FenceFree(body)
    ensures StripFences(JsonFence + "\n" + body + "\n" + Fence) == StripFences(body)
  {
    JsonFenceRemoved(body);
    FenceRemoved(body);
    BareBodyKept(body);
    assert body + "\n" == body + ['\n'];
    TrimAppendWhitespace(body, '\n');
  }

  /** Any marker that begins with a fence has no match in a fence-free body, up to its newline. */
  lemma FenceFreeBody(body: string, marker: string)
    requires FenceFree(body) && |marker| >= |Fence| && marker[..|Fence|] == Fence
    ensures NoMatchBefore(body + "\n" + Fence, |body| + 1, marker)
  {
    var w := body + "\n" + Fence;
    forall i | 0 <= i < |body| + 1
      ensures !StartsWith(w[i..], marker)
    {
      if i + |Fence| <= |body| {
        assert w[i..][..|Fence|] == body[i..][..|Fence|];
        assert !StartsWith(body[i..], Fence);
      } else {
        assert w[i..][|body| - i] == w[|body|] == '\n';
        assert marker[|body| - i] == Fence[|body| - i] == '`';
      }
    }
  }

  /** The opening fence goes with its newline; the closing fence is not a `json` fence. */
  lemma JsonFenceRemoved(body: string)
    requires FenceFree(body)
    ensures RemoveAll(JsonFence + "\n" + body + "\n" + Fence, JsonFence) == body + "\n" + Fence
  {
    var wrapped := JsonFence + "\n" + body + "\n" + Fence;
    var tail := body + "\n" + Fence;
    assert StartsWith(wrapped, JsonFence);
    assert wrapped[|JsonFence|..] == "\n" + tail;
    assert ("\n" + tail)[1..] == tail;
    FenceFreeBody(body, JsonFence);
    assert tail == (body + "\n") + Fence;
    RemoveAllUntouched(body + "\n", Fence, JsonFence);
    RemoveAllShort(Fence, JsonFence);
  }

  /** The closing fence goes; the newline before it stays for the trim. */
  lemma FenceRemoved(body: string)
    requires FenceFree(body)
    ensures RemoveAll(body + "\n" + Fence, Fence) == body + "\n"
  {
    FenceFreeBody(body, Fence);
    RemoveAllUntouched(body + "\n", Fence, Fence);
    assert StartsWith(Fence, Fence);
    assert Fence[|Fence|..] == [];
    assert body + "\n" + [] == body + "\n";
  }

  /** The bare body passes both removals untouched. */
  lemma BareBodyKept(body: string)
    requires FenceFree(body)
    ensures RemoveAll(RemoveAll(body, JsonFence), Fence) == body
  {
    forall i | 0 <= i < |body|
      ensures !StartsWith(body[i..], JsonFence)
    {
      assert !StartsWith(body[i..], Fence);
      if |JsonFence| <= |body[i..]| {
        assert body[i..][..|Fence|] == body[i..][..|JsonFence|][..|Fence|];
        assert JsonFence[..|Fence|] == Fence;
      }
    }
    RemoveAllNone(body, JsonFence);
    RemoveAllNone(body, Fence);
  }

  /**
   * The shape check: a truthy `name` and the six attributes numbers. `null`
   * has no properties at all, so it is not an NPC either.
   */
  predicate IsNpcShape(v: Json) {
    && !v.JNull?
    && IsTruthy(Member(v, "name"))
    && IsNumber(Member(v, "nex")) && IsNumber(Member(v, "agi")) && IsNumber(Member(v, "for"))
    && IsNumber(Member(v, "int")) && IsNumber(Member(v, "pre")) && IsNumber(Member(v, "vig"))
  }

  /** `!theme || typeof theme !== 'string'` fails. */
  predicate IsTheme(theme: Option<Json>) {
    theme.Some? && theme.value.JString? && theme.value.s != []
  }

  /** The value the route would take from the reply, before its shape check. */
  function ParsedReply(reply: string, parse: Parser): Option<Json> {
    parse(StripFences(reply))
  }

  /**
   * `POST /api/generate-npc`: 400 without a string theme, 500 without an API
   * key, 500 when the call fails, 500 when the cleaned reply does not parse,
   * 500 when it does not have the NPC shape; otherwise the parsed value as is.
   * Property access on a parsed `null` throws, which the outer handler
   * reports as an internal error.
   */
  function Post(theme: Option<Json>, apiKey: Option<string>, reply: Option<string>, parse: Parser)
    : (response: Response<Json>)
    ensures !IsTheme(theme) ==> response == Error(400, ThemeRequired)
    ensures IsTheme(theme) && Missing(apiKey) ==> response == Error(500, ApiKeyMissing)
    ensures IsTheme(theme) && !Missing(apiKey) && reply.None? ==> response == Error(500, InternalError)
    ensures response.Ok? <==>
      IsTheme(theme) && !Missing(apiKey) && reply.Some?
        && ParsedReply(reply.value, parse).Some? && IsNpcShape(ParsedReply(reply.value, parse).value)
    ensures response.Ok? ==> response.body == ParsedReply(reply.value, parse).value
    ensures IsTheme(theme) && !Missing(apiKey) && reply.Some? ==>
      var parsed := ParsedReply(reply.value, parse);
      && (parsed.None? ==> response == Error(500, ParseFailed))
      && (parsed == Some(JNull) ==> response == Error(500, InternalError))
      && (parsed.Some? && !parsed.value.JNull? && !IsNpcShape(parsed.value) ==> response == Error(500, InvalidShape))
    ensures response.Error? ==> response.status == 400 || response.status == 500
  {
    if !IsTheme(theme) then Error(400, ThemeRequired)
    else if Missing(apiKey) then Error(500, ApiKeyMissing)
    else match reply
      case None => Error(500, InternalError)
      case Some(text) =>
        match parse(StripFences(text))
        case None => Error(500, ParseFailed)
        case Some(JNull) => Error(500, InternalError)
        case Some(v) => if IsNpcShape(v) then Ok(v) else Error(500, InvalidShape)
  }

  /** The request guards are decided before the model is consulted: its reply cannot change them. */
  lemma GuardsPrecedeModel(theme: Option<Json>, apiKey: Option<string>,
                           reply1: Option<string>, parse1: Parser, reply2: Option<string>, parse2: Parser)
    requires !IsTheme(theme) || Missing(apiKey)
    ensures Post(theme, apiKey, reply1, parse1) == Post(theme, apiKey, reply2, parse2)
    ensures Post(theme, apiKey, reply1, parse1).Error?
  {
  }

  /** A fenced reply is treated exactly as the bare reply inside the fence. */
  lemma FencedReplyAccepted(theme: Option<Json>, apiKey: Option<string>, body: string, parse: Parser)
    requires FenceFree(body)
    ensures Post(theme, apiKey, Some(JsonFence + "\n" + body + "\n" + Fence), parse)
         == Post(theme, apiKey, Some(body), parse)
  {
    FencedReply(body);
  }
}
