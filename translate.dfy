/**
 * Machine translation: the request URLs of the Google and Bing handlers,
 * the parsing of their responses into a translation (or an error), the
 * HTML-entity fix-up applied to a translation, and handler selection.
 */
module Translate {

  /** The HTTP status of a successful request. */
  const HTTP_OK: int := 200

  // ---- std::string operations ----

  /** `pat` occurs in `s` at index `i`. */
  predicate OccursAt(s: string, pat: string, i: nat)
  {
    i + |pat| <= |s| && s[i..i + |pat|] == pat
  }

  /** std::string::find(pat, from), with -1 for npos: the first occurrence at or after `from`. */
  function Find(s: string, pat: string, from: nat): (r: int)
    ensures r == -1 || (from <= r && OccursAt(s, pat, r))
    ensures forall i | from <= i && (r == -1 || i < r) :: !OccursAt(s, pat, i)
    decreases |s| - from
  {
    if from + |pat| > |s| then -1
    else if OccursAt(s, pat, from) then from
    else Find(s, pat, from + 1)
  }

  /** `Find` returns the first occurrence at or after `from`. */
  lemma {:induction false} FindFirst(s: string, pat: string, from: nat, k: nat)
    requires from <= k && OccursAt(s, pat, k)
    requires forall i | from <= i < k :: !OccursAt(s, pat, i)
    ensures Find(s, pat, from) == k
    decreases k - from
  {
    if from < k {
      FindFirst(s, pat, from + 1, k);
    }
  }

  /** One differing character rules an occurrence out. */
  lemma Mismatch(s: string, pat: string, i: nat, j: nat)
    requires j < |pat| && i + j < |s| && s[i + j] != pat[j]
    ensures !OccursAt(s, pat, i)
  {
    if i + |pat| <= |s| {
      assert s[i..i + |pat|][j] == s[i + j];
    }
  }

  /** Occurrences in `s` past its first character are the occurrences in `s[1..]`, shifted by one. */
  lemma OccursShift(s: string, pat: string, i: nat)
    requires s != []
    ensures OccursAt(s[1..], pat, i) <==> OccursAt(s, pat, i + 1)
  {
    if i + 1 + |pat| <= |s| {
      assert s[1..][i..i + |pat|] == s[i + 1..i + 1 + |pat|];
    }
  }

  /** An occurrence inside `u`, the part of `s` from `begin`, is an occurrence in `s`. */
  lemma OccursWithin(s: string, begin: nat, u: string, pat: string, i: nat)
    requires begin + |u| <= |s| && s[begin..begin + |u|] == u && i + |pat| <= |u|
    ensures OccursAt(s, pat, begin + i) <==> OccursAt(u, pat, i)
  {
    var a := s[begin + i..begin + i + |pat|];
    var b := u[i..i + |pat|];
    forall k | 0 <= k < |pat| ensures a[k] == b[k] {
      assert u[i + k] == s[begin..begin + |u|][i + k];
    }
    assert a == b;
  }

  /** s.substr(begin, end - begin) where `end` may be npos: up to `end`, or to the end of `s`. */
  function Between(s: string, begin: nat, end: int): string
    requires begin <= |s| && (end == -1 || begin <= end <= |s|)
  {
    if end == -1 then s[begin..] else s[begin..end]
  }

  /**
   * LLStringUtil::replaceString: every occurrence of `target`, scanning left
   * to right and resuming after each replacement, becomes `replacement`.
   */
  function ReplaceAll(s: string, target: string, replacement: string): string
    requires target != []
    decreases |s|
  {
    if |s| < |target| then s
    else if OccursAt(s, target, 0) then replacement + ReplaceAll(s[|target|..], target, replacement)
    else [s[0]] + ReplaceAll(s[1..], target, replacement)
  }

  /** A string in which `target` does not occur is left as it is. */
  lemma ReplaceAbsent(s: string, target: string, replacement: string)
    requires target != [] && Find(s, target, 0) == -1
    ensures ReplaceAll(s, target, replacement) == s
  {
    ReplaceNowhere(s, target, replacement);
  }

  lemma {:induction false} ReplaceNowhere(s: string, target: string, replacement: string)
    requires target != [] && forall i: nat :: !OccursAt(s, target, i)
    ensures ReplaceAll(s, target, replacement) == s
    decreases |s|
  {
    if |s| >= |target| {
      assert !OccursAt(s, target, 0);
      forall i: nat ensures !OccursAt(s[1..], target, i) {
        OccursShift(s, target, i);
      }
      ReplaceNowhere(s[1..], target, replacement);
    }
  }

  /** A string without the first character of `target` is left as it is. */
  lemma {:induction false} ReplaceWithoutLead(s: string, target: string, replacement: string)
    requires target != [] && target[0] !in s
    ensures ReplaceAll(s, target, replacement) == s
    decreases |s|
  {
    if |s| >= |target| {
      assert s[0] in s && s[0..|target|][0] == s[0];
      assert forall c | c in s[1..] :: c in s;
      ReplaceWithoutLead(s[1..], target, replacement);
    }
  }

  // ---- The entity fix-up of a translation ----

  /** The fix-up as translateMessageCoro applies it: six replacements in this fixed order. */
  function FixUpAsWritten(t: string): string
  {
    var t1 := ReplaceAll(t, "&lt;", "<");
    var t2 := ReplaceAll(t1, "&gt;", ">");
    var t3 := ReplaceAll(t2, "&quot;", "\"");
    var t4 := ReplaceAll(t3, "&#39;", "'");
    var t5 := ReplaceAll(t4, "&amp;", "&");
    ReplaceAll(t5, "&apos;", "'")
  }

  /** HTML escaping as the translation services apply it to their output. */
  function Escape(x: string): string
  {
    if x == [] then []
    else EscapeChar(x[0]) + Escape(x[1..])
  }

  function EscapeChar(c: char): string
  {
    if c == '&' then "&amp;"
    else if c == '<' then "&lt;"
    else if c == '>' then "&gt;"
    else if c == '"' then "&quot;"
    else if c == '\'' then "&#39;"
    else [c]
  }

  /**
   * The as-written fix-up decodes `&amp;apos;`, the escaped form of the
   * text "&apos;", twice: first to "&apos;", then to "'".
   */
  lemma FixUpDecodesTwice()
    ensures Escape("&apos;") == "&amp;apos;"
    ensures FixUpAsWritten(Escape("&apos;")) == "'"
  {
    EscapeAmpersandEntity();
    var s := "&amp;apos;";
    assert s[1..] == "amp;apos;" && s[5..] == "apos;" && '&' !in s[1..];
    FirstFourKeepAmpersand(s);
    assert OccursAt(s, "&amp;", 0);
    ReplaceOnlyAtLead(s, "&amp;", "&");
    var t5 := "&apos;";
    assert "&" + s[5..] == t5;
    assert OccursAt(t5, "&apos;", 0) && t5[6..] == [];
    ReplaceOnlyAtLead(t5, "&apos;", "'");
  }

  /** A string that starts with "&a" and holds no other '&' passes the first four replacements unchanged. */
  lemma FirstFourKeepAmpersand(s: string)
    requires |s| >= 6 && s[0] == '&' && s[1] == 'a' && '&' !in s[1..]
    ensures ReplaceAll(ReplaceAll(ReplaceAll(ReplaceAll(s, "&lt;", "<"), "&gt;", ">"), "&quot;", "\""), "&#39;", "'") == s
  {
    KeepOnSecondMismatch(s, "&lt;", "<");
    KeepOnSecondMismatch(s, "&gt;", ">");
    KeepOnSecondMismatch(s, "&quot;", "\"");
    KeepOnSecondMismatch(s, "&#39;", "'");
  }

  lemma KeepOnSecondMismatch(s: string, target: string, replacement: string)
    requires 1 < |target| <= |s| && target[0] !in s[1..] && s[1] != target[1]
    ensures ReplaceAll(s, target, replacement) == s
  {
    Mismatch(s, target, 0, 1);
    ReplaceOnlyAtLead(s, target, replacement);
  }

  lemma EscapeAmpersandEntity()
    ensures Escape("&apos;") == "&amp;apos;"
  {
    assert "&apos;"[1..] == "apos;";
  }

  /** When the lead character of `target` is found only at the start of `s`, at most that one place is replaced. */
  lemma ReplaceOnlyAtLead(s: string, target: string, replacement: string)
    requires target != [] && |s| >= |target| && target[0] !in s[1..]
    ensures OccursAt(s, target, 0) ==> ReplaceAll(s, target, replacement) == replacement + s[|target|..]
    ensures !OccursAt(s, target, 0) ==> ReplaceAll(s, target, replacement) == s
  {
    if OccursAt(s, target, 0) {
      assert forall c | c in s[|target|..] :: c in s[1..];
      ReplaceWithoutLead(s[|target|..], target, replacement);
    } else {
      ReplaceWithoutLead(s[1..], target, replacement);
      assert [s[0]] + s[1..] == s;
    }
  }

  /**
   * The fix-up as evidently intended: one left-to-right pass that turns
   * each of the six entities into its character, so decoded text is never
   * decoded again.
   */
  function FixUp(s: string): string
    decreases |s|
  {
    if s == [] then []
    else if s[0] == '&' then
      if StartsWith(s, "&lt;") then "<" + FixUp(s[4..])
      else if StartsWith(s, "&gt;") then ">" + FixUp(s[4..])
      else if StartsWith(s, "&quot;") then "\"" + FixUp(s[6..])
      else if StartsWith(s, "&#39;") then "'" + FixUp(s[5..])
      else if StartsWith(s, "&amp;") then "&" + FixUp(s[5..])
      else if StartsWith(s, "&apos;") then "'" + FixUp(s[6..])
      else "&" + FixUp(s[1..])
    else [s[0]] + FixUp(s[1..])
  }

  predicate StartsWith(s: string, p: string)
  {
    |p| <= |s| && s[..|p|] == p
  }

  /** The intended fix-up undoes the services' escaping exactly. */
  lemma {:induction false} FixUpUndoesEscape(x: string)
    ensures FixUp(Escape(x)) == x
    decreases |x|
  {
    if x != [] {
      FixUpUndoesEscape(x[1..]);
      FixUpOneChar(x[0], Escape(x[1..]));
    }
  }

  lemma FixUpOneChar(c: char, rest: string)
    ensures FixUp(EscapeChar(c) + rest) == [c] + FixUp(rest)
  {
    var s := EscapeChar(c) + rest;
    if c == '&' {
      assert s[..5] == "&amp;" && s[5..] == rest;
      assert !StartsWith(s, "&lt;") && !StartsWith(s, "&gt;") && !StartsWith(s, "&quot;") && !StartsWith(s, "&#39;");
    } else if c == '<' {
      assert s[..4] == "&lt;" && s[4..] == rest;
    } else if c == '>' {
      assert s[..4] == "&gt;" && s[4..] == rest;
      assert !StartsWith(s, "&lt;");
    } else if c == '"' {
      assert s[..6] == "&quot;" && s[6..] == rest && s[1] == 'q';
      assert !StartsWith(s, "&lt;") && !StartsWith(s, "&gt;");
    } else if c == '\'' {
      assert s[..5] == "&#39;" && s[5..] == rest && s[1] == '#';
      assert !StartsWith(s, "&lt;") && !StartsWith(s, "&gt;") && !StartsWith(s, "&quot;");
    } else {
      assert s[0] == c && s[1..] == rest;
    }
  }

  /** The intended fix-up leaves text without an ampersand unchanged. */
  lemma {:induction false} FixUpPlainText(s: string)
    requires '&' !in s
    ensures FixUp(s) == s
    decreases |s|
  {
    if s != [] {
      assert s[0] in s;
      assert '&' !in s[1..] by {
        forall i | 0 <= i < |s| - 1 ensures s[1..][i] != '&' {
          assert s[1..][i] == s[i + 1] && s[i + 1] in s;
        }
      }
      FixUpPlainText(s[1..]);
      assert FixUp(s) == [s[0]] + FixUp(s[1..]);
      assert [s[0]] + s[1..] == s;
    }
  }

  /** The fix-up as written leaves text without an ampersand unchanged: every target starts with '&'. */
  lemma FixUpAsWrittenPlainText(s: string)
    requires '&' !in s
    ensures FixUpAsWritten(s) == s
  {
    ReplaceWithoutLead(s, "&lt;", "<");
    ReplaceWithoutLead(s, "&gt;", ">");
    ReplaceWithoutLead(s, "&quot;", "\"");
    ReplaceWithoutLead(s, "&#39;", "'");
    ReplaceWithoutLead(s, "&amp;", "&");
    ReplaceWithoutLead(s, "&apos;", "'");
  }

  // ---- JSON (nlohmann::json), as far as the Google handler reads it ----

  datatype Json = JNull | JBool(b: bool) | JNum(n: int) | JStr(s: string) | JArr(a: seq<Json>) | JObj(m: map<string, Json>)

  /** The JSON parser's result on a response body: a document, or the parser's message. */
  datatype Parsed = Document(root: Json) | ParseError(what: string)

  /** The in/out parameters of parseResponse: status, translation, detected language, error message. */
  datatype Out = Out(status: int, translation: string, detectedLang: string, errMsg: string)

  /** parseResponse returned `ok` with these out-parameters, or a json type error escaped it. */
  datatype Response = Returned(ok: bool, out: Out) | TypeError

  /** json::value(key, null) on an object. */
  function ValueOr(obj: Json, key: string, default: Json): Json
    requires obj.JObj?
  {
    if key in obj.m then obj.m[key] else default
  }

  /** get<std::string>(): only a string converts. */
  function GetString(j: Json): (r: Result<string>)
    ensures r.Ok? <==> j.JStr?
  {
    if j.JStr? then Ok(j.s) else Failed
  }

  /** get<int>(): a number converts, and so does a boolean (as 0 or 1). */
  function GetInt(j: Json): (r: Result<int>)
    ensures r.Ok? <==> j.JNum? || j.JBool?
  {
    match j
    case JNum(n) => Ok(n)
    case JBool(b) => Ok(if b then 1 else 0)
    case _ => Failed
  }

  datatype Result<T> = Ok(value: T) | Failed

  /** The root holds an "error" object with both a "message" and a "code". */
  predicate HasErrorFields(root: Json)
    requires root.JObj?
  {
    "error" in root.m && root.m["error"].JObj? && "message" in root.m["error"].m && "code" in root.m["error"].m
  }

  /**
   * LLGoogleTranslationHandler::parseErrorResponse: the service's error
   * message and code are copied only when the error object has both.
   */
  function GoogleErrorResponse(root: Json, out: Out): (r: Result<Out>)
    requires root.JObj?
    ensures r.Ok? ==> r.value.translation == out.translation && r.value.detectedLang == out.detectedLang
    ensures r.Ok? && r.value != out ==>
      && "error" in root.m && root.m["error"].JObj?
      && "message" in root.m["error"].m && "code" in root.m["error"].m
      && root.m["error"].m["message"] == JStr(r.value.errMsg)
    ensures !HasErrorFields(root) ==> r == Ok(out)
    ensures HasErrorFields(root) ==>
      var error := root.m["error"].m;
      && (r.Ok? <==> GetString(error["message"]).Ok? && GetInt(error["code"]).Ok?)
      && (r.Ok? ==> r.value == out.(errMsg := GetString(error["message"]).value, status := GetInt(error["code"]).value))
  {
    var error := ValueOr(root, "error", JNull);
    if !error.JObj? || "message" !in error.m || "code" !in error.m then Ok(out)
    else
      match GetString(error.m["message"])
      case Failed => Failed
      case Ok(msg) =>
        match GetInt(error.m["code"])
        case Failed => Failed
        case Ok(code) => Ok(out.(errMsg := msg, status := code))
  }

  /**
   * LLGoogleTranslationHandler::parseTranslation: data.translations[0]
   * must exist and carry translatedText; the detected source language
   * defaults to "".
   */
  function GoogleTranslation(root: Json, out: Out): Response
    requires root.JObj?
  {
    var data := ValueOr(root, "data", JNull);
    if !data.JObj? || "translations" !in data.m then Returned(false, out)
    else
      var translations := data.m["translations"];
      if !translations.JArr? || translations.a == [] then Returned(false, out)
      else
        var first := translations.a[0];
        if !first.JObj? || "translatedText" !in first.m then Returned(false, out)
        else
          match GetString(first.m["translatedText"])
          case Failed => TypeError
          case Ok(text) =>
            match GetString(ValueOr(first, "detectedSourceLanguage", JStr("")))
            case Failed => TypeError
            case Ok(lang) => Returned(true, out.(translation := text, detectedLang := lang))
  }

  /** LLGoogleTranslationHandler::parseResponse; `out.status` is the request's status on entry. */
  function GoogleResponse(body: Parsed, out: Out): Response
  {
    match body
    case ParseError(what) => Returned(false, out.(errMsg := what))
    case Document(root) =>
      if !root.JObj? then Returned(false, out)
      else if out.status != HTTP_OK then
        match GoogleErrorResponse(root, out)
        case Failed => TypeError
        case Ok(o) => Returned(false, o)
      else GoogleTranslation(root, out)
  }

  /** A well-formed translation: data.translations is a non-empty array whose first entry is an object with translatedText. */
  predicate GoogleWellFormed(root: Json)
  {
    && root.JObj? && "data" in root.m && root.m["data"].JObj?
    && "translations" in root.m["data"].m
    && var ts := root.m["data"].m["translations"];
       ts.JArr? && ts.a != [] && ts.a[0].JObj? && "translatedText" in ts.a[0].m
  }

  /**
   * parseResponse fails for an unparseable body (with the parser's
   * message), for a non-object root and for any status other than OK;
   * with status OK it succeeds exactly on a well-formed translation.
   */
  lemma GoogleResponseCases(body: Parsed, out: Out)
    ensures body.ParseError? ==> GoogleResponse(body, out) == Returned(false, out.(errMsg := body.what))
    ensures body.Document? && !body.root.JObj? ==> GoogleResponse(body, out) == Returned(false, out)
    ensures out.status != HTTP_OK ==> match GoogleResponse(body, out)
      case Returned(ok, _) => !ok
      case TypeError => true
    ensures out.status == HTTP_OK && body.Document? ==>
      var r := GoogleResponse(body, out);
      (r.Returned? && r.ok) ==> GoogleWellFormed(body.root)
    ensures out.status == HTTP_OK && body.Document? && GoogleWellFormed(body.root) ==>
      var r := GoogleResponse(body, out);
      r.TypeError? || (r.Returned? && r.ok)
  {
  }

  /** A successful Google parse copies translatedText, and the source language or "" when it is not given. */
  lemma GoogleSuccess(root: Json, out: Out, text: string)
    requires out.status == HTTP_OK && GoogleWellFormed(root)
    requires root.m["data"].m["translations"].a[0].m["translatedText"] == JStr(text)
    requires "detectedSourceLanguage" !in root.m["data"].m["translations"].a[0].m
    ensures GoogleResponse(Document(root), out) == Returned(true, out.(translation := text, detectedLang := ""))
  {
  }

  // ---- The Bing handler ----

  /** LLBingTranslationHandler::parseResponse on the raw body; `out.status` is the request's status. */
  function BingResponse(body: string, out: Out): (r: Response)
    ensures r.Returned? && r.out.status == out.status
    ensures r.ok <==> out.status == HTTP_OK
    ensures r.ok ==> r.out.detectedLang == "" && r.out.errMsg == out.errMsg && r.out.translation == BingTranslationText(body)
    ensures !r.ok ==> r.out.errMsg == BingErrorText(body)
    ensures !r.ok ==> r.out.translation == out.translation && r.out.detectedLang == out.detectedLang
  {
    if out.status != HTTP_OK then Returned(false, out.(errMsg := BingErrorText(body)))
    else Returned(true, out.(detectedLang := "", translation := BingTranslationText(body)))
  }

  /** The error text: from after "Message: " (or the start) up to "</p>", carriage-return entities removed. */
  function BingErrorText(body: string): string
  {
    var marker := Find(body, "Message: ", 0);
    var begin := if marker != -1 then marker + |"Message: "| else 0;
    var end := Find(body, "</p>", begin);
    ReplaceAll(Between(body, begin, end), "&#xD;", "")
  }

  /** The translation: from after the first `>` (or the start) up to "</string>", carriage-return entities removed. */
  function BingTranslationText(body: string): string
  {
    TextBefore(body, "</string>")
  }

  /** From after the first `>` (or the start) up to `close`, carriage-return entities removed. */
  function TextBefore(body: string, close: string): string
  {
    var gt := Find(body, ">", 0);
    var begin := if gt == -1 || gt >= |body| - 1 then 0 else gt + 1;
    var end := Find(body, close, begin);
    ReplaceAll(Between(body, begin, end), "&#xD;", "")
  }

  /**
   * A response shaped like the service's sample, an opening tag (no `>`
   * inside), the text and "</string>", gives the text itself when it
   * carries no carriage-return entity.
   */
  lemma BingSample(open: string, text: string, rest: string)
    requires '>' !in open
    requires Find(text + "</string>", "</string>", 0) == |text|
    requires Find(text, "&#xD;", 0) == -1
    ensures BingTranslationText(open + ">" + text + "</string>" + rest) == text
  {
    TaggedText(open, text, "</string>", rest);
  }

  /** In `open>text close rest`, the text is what lies between the first `>` and the first `close` after it. */
  lemma TaggedText(open: string, text: string, close: string, rest: string)
    requires '>' !in open && close != [] && Find(text + close, close, 0) == |text|
    requires Find(text, "&#xD;", 0) == -1
    ensures TextBefore(open + ">" + text + close + rest, close) == text
  {
    var body := open + ">" + text + close + rest;
    assert body == open + ">" + (text + close + rest);
    LocateText(open, text, close, rest);
    TextAt(body, close, |open| + 1, text);
  }

  lemma LocateText(open: string, text: string, close: string, rest: string)
    requires '>' !in open && close != [] && Find(text + close, close, 0) == |text|
    ensures var body := open + ">" + (text + close + rest);
      && Find(body, ">", 0) == |open|
      && Find(body, close, |open| + 1) == |open| + 1 + |text|
      && body[|open| + 1..|open| + 1 + |text|] == text
  {
    FirstGreaterThan(open, text + close + rest);
    CloseAfterText(open, text, close, rest);
  }

  /** The first `close` after the `>` of `open>text close rest` is the one that ends `text`. */
  lemma CloseAfterText(open: string, text: string, close: string, rest: string)
    requires close != [] && Find(text + close, close, 0) == |text|
    ensures var body := open + ">" + (text + close + rest);
      && Find(body, close, |open| + 1) == |open| + 1 + |text|
      && body[|open| + 1..|open| + 1 + |text|] == text
  {
    TaggedSlices(open, text, close, rest);
    FindAfter(open + ">", text + close, rest, close);
  }

  /** A search that starts where `u` starts finds what a search of `u` finds. */
  lemma FindAfter(prefix: string, u: string, rest: string, pat: string)
    requires Find(u, pat, 0) != -1
    ensures Find(prefix + (u + rest), pat, |prefix|) == |prefix| + Find(u, pat, 0)
  {
    var s := prefix + (u + rest);
    assert s[|prefix|..|prefix| + |u|] == u by {
      assert s[|prefix|..] == u + rest;
    }
    FindShifted(s, |prefix|, u, pat);
  }

  /** Where the parts of `open>text close rest` lie. */
  lemma TaggedSlices(open: string, text: string, close: string, rest: string)
    ensures var body := open + ">" + (text + close + rest);
      && body == open + ">" + ((text + close) + rest)
      && body[|open| + 1..|open| + 1 + |text + close|] == text + close
      && body[|open| + 1..|open| + 1 + |text|] == text
  {
    var u := text + close;
    var body := open + ">" + (text + close + rest);
    var begin := |open| + 1;
    assert body[begin..] == u + rest;
    assert body[begin..begin + |u|] == (u + rest)[..|u|] == u;
    assert body[begin..begin + |text|] == (u + rest)[..|text|] == text;
  }

  /** The text between the first `>`, which ends the opening part, and the `close` that follows. */
  lemma TextAt(body: string, close: string, begin: nat, text: string)
    requires 0 < begin < |body| && Find(body, ">", 0) == begin - 1
    requires Find(body, close, begin) == begin + |text| && body[begin..begin + |text|] == text
    requires Find(text, "&#xD;", 0) == -1
    ensures TextBefore(body, close) == text
  {
    var end := Find(body, close, begin);
    assert Between(body, begin, end) == text;
    ReplaceAbsent(text, "&#xD;", "");
  }

  /** The first `>` of a body whose opening part holds none is the one just after it. */
  lemma FirstGreaterThan(open: string, after: string)
    requires '>' !in open
    ensures Find(open + ">" + after, ">", 0) == |open|
  {
    var body := open + ">" + after;
    forall i | 0 <= i < |open| ensures !OccursAt(body, ">", i) {
      assert body[i..i + 1][0] == open[i] && open[i] in open;
    }
    assert body[|open|..|open| + 1] == ">";
    FindFirst(body, ">", 0, |open|);
  }

  /** A search from `begin` in `s` finds what a search of the part `u` that starts there finds. */
  lemma FindShifted(s: string, begin: nat, u: string, pat: string)
    requires begin + |u| <= |s| && s[begin..begin + |u|] == u
    requires Find(u, pat, 0) != -1
    ensures Find(s, pat, begin) == begin + Find(u, pat, 0)
  {
    var k := Find(u, pat, 0);
    OccursWithin(s, begin, u, pat, k);
    forall i | begin <= i < begin + k ensures !OccursAt(s, pat, i) {
      OccursWithin(s, begin, u, pat, i - begin);
    }
    FindFirst(s, pat, begin, begin + k);
  }

  /** An error body without the "Message: " marker gives everything up to "</p>". */
  lemma BingErrorWithoutMarker(body: string, out: Out)
    requires out.status != HTTP_OK && Find(body, "Message: ", 0) == -1 && Find(body, "&#xD;", 0) == -1
    ensures var t := Find(body, "</p>", 0);
      BingResponse(body, out).out.errMsg == (if t == -1 then body else body[..t])
  {
    var t := Find(body, "</p>", 0);
    if t != -1 {
      var p := body[..t];
      forall i: nat ensures !OccursAt(p, "&#xD;", i) {
        if i + 5 <= |p| {
          OccursWithin(body, 0, p, "&#xD;", i);
        }
      }
      ReplaceNowhere(p, "&#xD;", "");
    } else {
      ReplaceAbsent(body, "&#xD;", "");
    }
  }

  /** getAPILanguageCode: Chinese is sent as Traditional Chinese, any other code as it is. */
  function BingLanguageCode(lang: string): (r: string)
    ensures lang != "zh" ==> r == lang
    ensures lang == "zh" ==> r == "zh-CHT"
  {
    if lang == "zh" then "zh-CHT" else lang
  }

  // ---- Request URLs (the API key and URI escaping are parameters) ----

  function GoogleURL(key: string, escape: string -> string, fromLang: string, toLang: string, text: string): string
  {
    "https://www.googleapis.com/language/translate/v2?key=" + key + "&q=" + escape(text) + "&target=" + toLang
      + (if fromLang != "" then "&source=" + fromLang else "")
  }

  function BingURL(key: string, escape: string -> string, fromLang: string, toLang: string, text: string): string
  {
    "http://api.microsofttranslator.com/v2/Http.svc/Translate?appId=" + key + "&text=" + escape(text)
      + "&to=" + BingLanguageCode(toLang)
      + (if fromLang != "" then "&from=" + BingLanguageCode(fromLang) else "")
  }

  /** The source language is sent only when given, as a last parameter after the auto-detect URL. */
  lemma URLSourceParameter(key: string, escape: string -> string, fromLang: string, toLang: string, text: string)
    ensures fromLang == "" ==> GoogleURL(key, escape, fromLang, toLang, text) == GoogleURL(key, escape, "", toLang, text)
    ensures fromLang != "" ==>
      GoogleURL(key, escape, fromLang, toLang, text) == GoogleURL(key, escape, "", toLang, text) + "&source=" + fromLang
    ensures fromLang != "" ==>
      BingURL(key, escape, fromLang, toLang, text) == BingURL(key, escape, "", toLang, text) + "&from=" + BingLanguageCode(fromLang)
  {
  }

  // ---- Handler selection ----

  datatype Service = Google | Bing

  /** The two handlers; each reports its own service. */
  datatype Handler = GoogleHandler | BingHandler

  function CurrentService(h: Handler): Service
  {
    match h
    case GoogleHandler => Google
    case BingHandler => Bing
  }

  /** getHandler: the Google handler for the Google service, the Bing handler otherwise. */
  function GetHandler(service: Service): (h: Handler)
    ensures CurrentService(h) == service
  {
    match service
    case Google => GoogleHandler
    case Bing => BingHandler
  }

  /** getPreferredHandler: the TranslationService setting selects Google only when it is exactly "google". */
  function PreferredHandler(setting: string): (h: Handler)
    ensures h == GoogleHandler <==> setting == "google"
  {
    GetHandler(if setting == "google" then Google else Bing)
  }

  // ---- The response handling of translateMessageCoro ----

  datatype Translation = Success(translation: string, detectedLang: string) | Failure(status: int, errMsg: string) | Aborted

  /**
   * translateMessageCoro after the request: the handler parses the body
   * (the detected language starts as the target language), a success is
   * fixed up and delivered, a failure is reported with the request's HTTP
   * status and, when the handler left no message, the generic parse error
   * text `parseErrorText`.
   */
  function HandleResponse(h: Handler, status: int, body: string, parse: string -> Parsed, toLang: string,
                          parseErrorText: string): (r: Translation)
    ensures h == BingHandler ==> (r.Success? <==> status == HTTP_OK)
    ensures h == BingHandler && status == HTTP_OK ==> r == Success(FixUpAsWritten(BingTranslationText(body)), "")
    ensures h == BingHandler && status != HTTP_OK ==>
      r == Failure(status, if BingErrorText(body) == "" then parseErrorText else BingErrorText(body))
    ensures r.Failure? ==> r.errMsg != "" || parseErrorText == ""
  {
    var out := Out(status, "", toLang, "");
    var response := if h == GoogleHandler then GoogleResponse(parse(body), out) else BingResponse(body, out);
    match response
    case TypeError => Aborted
    case Returned(ok, o) =>
      if ok then Success(FixUpAsWritten(o.translation), o.detectedLang)
      else Failure(status, if o.errMsg == "" then parseErrorText else o.errMsg)
  }
}
