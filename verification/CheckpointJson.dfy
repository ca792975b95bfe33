/**
 The string escaper and the string reader of utils/execution/checkpoint_persist.c.
 C strings are Dafny strings without a NUL.
 */
module CheckpointJson {

  predicate NulFree(s: string) {
    forall k :: 0 <= k < |s| ==> s[k] != '\0'
  }

  /** What write_json_escaped_str emits for one character. */
  function EscapeChar(c: char): string {
    if c == '"' then "\\\""
    else if c == '\\' then "\\\\"
    else if c == '\n' then "\\n"
    else if c == '\r' then "\\r"
    else if c == '\t' then "\\t"
    else [c]
  }

  function Escape(s: string): string {
    if s == "" then "" else EscapeChar(s[0]) + Escape(s[1..])
  }

  method WriteEscaped(s: string) returns (out: string)
    ensures out == Escape(s)
  {
    out := "";
    var i := 0;
    while i < |s|
      invariant 0 <= i <= |s| && Escape(s) == out + Escape(s[i..])
    {
      assert s[i..][1..] == s[i + 1..];
      out := out + EscapeChar(s[i]);
      i := i + 1;
    }
  }

  /** The character an escape stands for; unknown escapes give a backslash. */
  function Unescaped(c: char): char {
    if c == 'n' then '\n' else if c == 't' then '\t' else if c == 'r' then '\r' else if c == '"' then '"' else '\\'
  }

  /** The loop of json_extract_string from position `p`: the characters read, and where it
      stops. */
  function Read(json: string, p: nat): (r: (string, nat))
    requires p <= |json|
    ensures p <= r.1 <= |json|
    decreases |json| - p
  {
    if p == |json| || json[p] == '"' || json[p] == '\n' then ("", p)
    else if json[p] == '\\' && p + 1 < |json| then
      var r := Read(json, p + 2);
      ([Unescaped(json[p + 1])] + r.0, r.1)
    else
      var r := Read(json, p + 1);
      ([json[p]] + r.0, r.1)
  }

  /** The character at `p` of a string body, and how many characters spell it. */
  function CharAt(json: string, p: nat): (char, nat)
    requires p < |json|
  {
    if json[p] == '\\' && p + 1 < |json| then (Unescaped(json[p + 1]), 2) else (json[p], 1)
  }

  lemma ReadStep(json: string, p: nat)
    requires p < |json| && json[p] != '"' && json[p] != '\n'
    ensures p + CharAt(json, p).1 <= |json|
    ensures Read(json, p).0 == [CharAt(json, p).0] + Read(json, p + CharAt(json, p).1).0
    ensures Read(json, p).1 == Read(json, p + CharAt(json, p).1).1
  {
  }

  lemma ReadEnd(json: string, p: nat)
    requires p <= |json| && (p == |json| || json[p] == '"' || json[p] == '\n')
    ensures Read(json, p) == ("", p)
  {
  }

  lemma Joined(a: string, c: char, b: string)
    ensures a + ([c] + b) == (a + [c]) + b
  {
  }

  /** json_extract_string after the opening quote, with its doubling buffer. */
  method ReadString(json: string, start: nat) returns (val: string, p: nat)
    requires start <= |json| && NulFree(json)
    ensures (val, p) == Read(json, start)
  {
    hide Read;
    var cap := 512;
    var buf := new char[cap](_ => '\0');
    var len := 0;
    p := start;
    while p < |json| && json[p] != '"' && json[p] != '\n'
      invariant start <= p <= |json| && fresh(buf) && buf.Length == cap && len + 2 <= cap
      invariant Read(json, start).0 == buf[..len] + Read(json, p).0
      invariant Read(json, start).1 == Read(json, p).1
      decreases |json| - p
    {
      ghost var before := buf[..len];
      var c, width := json[p], 1;
      if json[p] == '\\' && p + 1 < |json| {
        c, width := Unescaped(json[p + 1]), 2;
      }
      ReadStep(json, p);
      Joined(before, c, Read(json, p + width).0);
      if len + 2 >= cap {
        buf := Doubled(buf, len);
        cap := cap * 2;
      }
      buf[len] := c;
      len := len + 1;
      assert buf[..len] == before + [c];
      p := p + width;
    }
    ReadEnd(json, p);
    assert buf[..len] + "" == buf[..len];
    val := buf[..len];
    buf[len] := '\0';
  }

  /** realloc to twice the size. */
  method Doubled(buf: array<char>, len: nat) returns (r: array<char>)
    requires len <= buf.Length && buf.Length > 0
    ensures fresh(r) && r.Length == 2 * buf.Length && r[..len] == buf[..len]
  {
    r := new char[2 * buf.Length](_ => '\0');
    forall k | 0 <= k < len {
      r[k] := buf[k];
    }
  }

  lemma EscapedChar(json: string, p: nat, c: char)
    requires p + |EscapeChar(c)| <= |json| && json[p..p + |EscapeChar(c)|] == EscapeChar(c)
    ensures p < |json| && json[p] != '"' && json[p] != '\n' && CharAt(json, p) == (c, |EscapeChar(c)|)
  {
    var e := EscapeChar(c);
    assert json[p] == json[p..p + |e|][0];
    if |e| == 2 {
      assert json[p + 1] == json[p..p + |e|][1];
    }
  }

  lemma DropFirst(json: string, p: nat, e: string, rest: string)
    requires p <= |json| && json[p..] == e + rest
    ensures p + |e| <= |json| && json[p..p + |e|] == e && json[p + |e|..] == rest
  {
    assert |json[p..]| == |e| + |rest|;
    assert json[p..p + |e|] == json[p..][..|e|];
    assert json[p + |e|..] == json[p..][|e|..];
  }

  lemma {:induction false} EscapeUnfold(s: string)
    requires s != ""
    ensures Escape(s) == EscapeChar(s[0]) + Escape(s[1..])
  {
  }

  lemma Associate(a: string, b: string, c: string)
    ensures (a + b) + c == a + (b + c)
  {
  }

  lemma {:induction false} ReadBack(s: string, json: string, p: nat, tail: string)
    requires p <= |json| && json[p..] == Escape(s) + tail && tail != "" && tail[0] == '"'
    ensures Read(json, p) == (s, p + |Escape(s)|)
    decreases |s|
  {
    if s == "" {
      assert json[p] == json[p..][0];
      ReadEnd(json, p);
    } else {
      hide Read, Escape, EscapeChar;
      EscapeUnfold(s);
      Associate(EscapeChar(s[0]), Escape(s[1..]), tail);
      DropFirst(json, p, EscapeChar(s[0]), Escape(s[1..]) + tail);
      ReadBack(s[1..], json, p + |EscapeChar(s[0])|, tail);
      EscapedChar(json, p, s[0]);
      ReadStep(json, p);
      assert s == [s[0]] + s[1..];
    }
  }

  /** Reading undoes escaping for every string, and stops exactly at the closing quote,
      whatever follows it. */
  lemma EscapeThenRead(s: string, before: string, rest: string)
    ensures Read(before + Escape(s) + "\"" + rest, |before|) == (s, |before| + |Escape(s)|)
  {
    hide Read, Escape;
    var json := before + Escape(s) + "\"" + rest;
    assert json[|before|..] == Escape(s) + ("\"" + rest);
    ReadBack(s, json, |before|, "\"" + rest);
  }

  /** Escaped text has no line feed and no NUL. */
  lemma {:induction false} EscapeKeepsNulFree(s: string)
    requires NulFree(s)
    ensures NulFree(Escape(s)) && '\n' !in Escape(s)
    decreases |s|
  {
    if s != "" {
      EscapeKeepsNulFree(s[1..]);
    }
  }

  /** A string body in JSON as far as this writer goes: quotes, backslashes, line feeds, carriage returns
      and tabs stand only behind a backslash, the last three as the letters n, r and t. */
  predicate IsBody(b: string)
    decreases |b|
  {
    || b == ""
    || (b[0] !in "\"\\\n\r\t" && IsBody(b[1..]))
    || (|b| >= 2 && b[0] == '\\' && b[1] in "\"\\nrt" && IsBody(b[2..]))
  }

  /** What is written is such a body, so no quote inside it closes the string. */
  lemma {:induction false} EscapeIsBody(s: string)
    ensures IsBody(Escape(s))
    decreases |s|
  {
    if s != "" {
      EscapeIsBody(s[1..]);
      var e, rest := EscapeChar(s[0]), Escape(s[1..]);
      assert (e + rest)[|e|..] == rest;
    }
  }

  /** The five escapes. */
  lemma FiveEscapes()
    ensures Escape("\"") == "\\\"" && Escape("\\") == "\\\\"
    ensures Escape("\n") == "\\n" && Escape("\r") == "\\r" && Escape("\t") == "\\t"
  {
    OneEscape('"');
    OneEscape('\\');
    OneEscape('\n');
    OneEscape('\r');
    OneEscape('\t');
  }

  lemma OneEscape(c: char)
    ensures Escape([c]) == EscapeChar(c)
  {
    assert [c][1..] == "";
  }

  /** Any other escape is read as a backslash, and its letter is dropped. */
  lemma UnknownEscape(c: char, rest: string)
    requires c !in "ntr\"\\"
    ensures Read(['\\', c] + rest, 0).0 == "\\" + Read(['\\', c] + rest, 2).0
  {
    var json := ['\\', c] + rest;
    ReadStep(json, 0);
    assert CharAt(json, 0) == ('\\', 2);
  }

  predicate IsControl(c: char) {
    c < ' '
  }

  predicate ControlFree(s: string) {
    forall k :: 0 <= k < |s| ==> !IsControl(s[k])
  }

  /** JSON allows no bare control character. The text written has none exactly when the string has none
      but line feeds, carriage returns and tabs. */
  lemma {:induction false} ControlFreeIff(s: string)
    ensures ControlFree(Escape(s)) <==> forall k :: 0 <= k < |s| && IsControl(s[k]) ==> s[k] in "\n\r\t"
    decreases |s|
  {
    if s != "" {
      ControlFreeIff(s[1..]);
      var e, rest := EscapeChar(s[0]), Escape(s[1..]);
      ControlFreeJoin(e, rest);
      assert ControlFree(e) <==> (IsControl(s[0]) ==> s[0] in "\n\r\t") by { OneControl(s[0]); }
      assert forall k :: 0 < k < |s| ==> s[k] == s[1..][k - 1];
      assert forall k :: 0 <= k < |s[1..]| ==> s[1..][k] == s[k + 1];
    }
  }

  lemma ControlFreeJoin(a: string, b: string)
    ensures ControlFree(a + b) <==> ControlFree(a) && ControlFree(b)
  {
    if ControlFree(a + b) {
      forall k | 0 <= k < |a| ensures !IsControl(a[k]) { assert (a + b)[k] == a[k]; }
      forall k | 0 <= k < |b| ensures !IsControl(b[k]) { assert (a + b)[|a| + k] == b[k]; }
    }
  }

  lemma OneControl(c: char)
    ensures ControlFree(EscapeChar(c)) <==> (IsControl(c) ==> c in "\n\r\t")
  {
    assert EscapeChar(c)[0] == c || EscapeChar(c)[0] == '\\';
  }
}
