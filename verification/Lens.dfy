/** Editing with `conffile` and reading back with `config`: two different
    parsers that have to agree on every text. */
module Lens {
  import opened Options
  import opened Decimal
  import opened Text
  import opened ConfFile
  import opened EditorLaws
  import opened Reader = ConfigReader

  /** No comment sign and no quotes: the comment scanner passes over it. */
  predicate PlainText(s: string) {
    NoChar(s, '#') && NoChar(s, '"') && NoChar(s, '\'')
  }

  /** A configuration key, as an identifier is. */
  predicate PlainKey(k: string) {
    k != "" && PlainText(k) && EditableKey(k) && k[0] != '['
  }

  // ---- the comment scanner --------------------------------------------------------

  lemma {:induction false} CutConcat(a: string, b: string, q: Quote)
    ensures CutAt(a + b, q) == if CutAt(a, q) < |a| then CutAt(a, q) else |a| + CutAt(b, Steps(q, a))
    decreases |a|
  {
    if a == "" {
      assert a + b == b;
    } else {
      assert (a + b)[1..] == a[1..] + b;
      CutConcat(a[1..], b, Step(q, a[0]));
    }
  }

  lemma {:induction false} PlainScan(s: string)
    requires PlainText(s)
    ensures CutAt(s, OUTSIDE) == |s| && Steps(OUTSIDE, s) == OUTSIDE
    decreases |s|
  {
    if s != "" {
      assert s[0] != '#' && s[0] != '"' && s[0] != '\'';
      PlainScan(s[1..]);
    }
  }

  /** A plain beginning moves the cut along. */
  lemma CutAfterPlain(p: string, r: string)
    requires PlainText(p)
    ensures CutAt(p + r, OUTSIDE) == |p| + CutAt(r, OUTSIDE)
  {
    PlainScan(p);
    CutConcat(p, r, OUTSIDE);
  }

  // ---- the two parsers see the same keys ---------------------------------------------

  lemma EqualsSolid()
    ensures !IsSpace('=')
  {
  }

  /** A trimmed `p = r` line: its key part and value part, each with the white space before its `=`. */
  lemma TrimLine(p: string, r: string) returns (left: string, right: string)
    requires Trim(p) != ""
    ensures Trim(p + "=" + r) == left + "=" + right
    ensures left != "" && left[0] == Trim(p)[0] && Trim(left) == Trim(p) && Trim(right) == Trim(r)
    ensures NoChar(p, '=') ==> NoChar(left, '=')
  {
    hide Trim, IsSpace;
    var a, b := TrimParts(p);
    var c, d := TrimParts(r);
    var k, m := Trim(p), Trim(r);
    left, right := k + b, if m == "" then "" else c + m;
    var line, tail := left + "=" + right, if m == "" then r else d;
    assert p + "=" + r == a + line + tail;
    EqualsSolid();
    assert line[0] == k[0] && line[|line| - 1] == if m == "" then '=' else m[|m| - 1];
    TrimOf(a, line, tail);
    assert a + k + b == a + left;
    NoCharConcat(a, left, '=');
    TrimOf("", k, b);
    assert "" + k + b == left;
    if m == "" {
      TrimSolid("");
    } else {
      TrimOf(c, m, "");
      assert c + m + "" == right;
    }
  }

  /** Reading `p = r`, whatever white space surrounds the parts. */
  lemma ReadParts(p: string, r: string)
    requires NoChar(p, '=') && Trim(p) != "" && Trim(p)[0] != '['
    ensures ReadStripped(p + "=" + r) == Some(Entry(Trim(p), Reader.Unquote(Trim(r))))
  {
    hide Reader.Unquote, Trim;
    var left, right := TrimLine(p, r);
    IndexOfFirst(left, '=', right);
    var line := left + "=" + right;
    assert line[..|left|] == left && line[|left| + 1..] == right;
  }

  lemma EditorKeyRead(raw: string, k: string)
    requires PlainKey(k) && LineKey(raw) == Some(k)
    ensures ReadLine(raw).Some? && ReadLine(raw).value.key == k
  {
    hide Reader.Unquote, Trim, IsSpace, CutAt, ReadStripped, PlainText, EditableKey, TrimEnd, TrimStart;
    var line := TrimEnd(raw);
    var b := TrimEndParts(raw);
    var eq := IndexOf(line, '=');
    var p, r := line[..eq], line[eq + 1..] + b;
    assert raw == p + "=" + r;
    KeyTextPlain(p);
    CutAfterPlain(p + "=", r);
    var n := CutAt(r, OUTSIDE);
    assert raw[..CutAt(raw, OUTSIDE)] == p + "=" + r[..n];
    ReadParts(p, r[..n]);
  }

  lemma PlainConcat(a: string, b: string)
    ensures PlainText(a + b) <==> PlainText(a) && PlainText(b)
  {
    NoCharConcat(a, b, '#');
    NoCharConcat(a, b, '"');
    NoCharConcat(a, b, '\'');
  }

  lemma KeyTextPlain(p: string)
    requires PlainText(Trim(p))
    ensures PlainText(p + "=")
  {
    hide PlainText;
    var a, b := TrimParts(p);
    SpacePlain(a);
    SpacePlain(b);
    PlainConcat(a, Trim(p));
    PlainConcat(a + Trim(p), b);
    PlainConcat(p, "=");
    EqualsPlain();
  }

  lemma SpacePlain(a: string)
    requires AllSpace(a)
    ensures PlainText(a)
  {
  }

  lemma EqualsPlain()
    ensures PlainText("=") && PlainText(" = ")
  {
  }

  lemma ReaderKeyEdited(raw: string, k: string)
    requires PlainKey(k) && ReadLine(raw).Some? && ReadLine(raw).value.key == k
    ensures LineKey(raw) == Some(k)
  {
    var n := CutAt(raw, OUTSIDE);
    StrippedKey(raw[..n], raw[n..], k);
    assert raw == raw[..n] + raw[n..];
  }

  lemma StrippedKey(stripped: string, rest: string, k: string)
    requires PlainKey(k) && ReadStripped(stripped).Some? && ReadStripped(stripped).value.key == k
    ensures LineKey(stripped + rest) == Some(k)
  {
    hide Reader.Unquote, LineKey, Trim, IsSpace, PlainText;
    var a, b := TrimParts(stripped);
    var line := Trim(stripped);
    var eq := IndexOf(line, '=');
    var p, r := line[..eq], line[eq + 1..];
    assert line == p + "=" + r;
    assert stripped + rest == (a + p) + "=" + (r + b + rest);
    EqualsSolid();
    SpaceHasNone(a, '=');
    NoCharConcat(a, p, '=');
    TrimPrefixed(a, p);
    LineKeyOf(a + p, r + b + rest);
  }

  lemma TrimPrefixed(a: string, p: string)
    requires AllSpace(a)
    ensures Trim(a + p) == Trim(p)
  {
    hide Trim, IsSpace;
    var c, d := TrimParts(p);
    TrimOf(a + c, Trim(p), d);
    assert a + p == (a + c) + Trim(p) + d;
  }

  /** For every line and every plain key, editor and reader agree whether the line is of that key. */
  lemma KeysAgree(raw: string, k: string)
    requires PlainKey(k)
    ensures LineKey(raw) == Some(k) <==> ReadLine(raw).Some? && ReadLine(raw).value.key == k
  {
    hide ReadLine, LineKey, PlainKey;
    if LineKey(raw) == Some(k) { EditorKeyRead(raw, k); }
    if ReadLine(raw).Some? && ReadLine(raw).value.key == k { ReaderKeyEdited(raw, k); }
  }

  // ---- a value written is read back -----------------------------------------------------

  /** The comment scanner, inside the quotes the writer put, never sees a live `#` of `v`. */
  predicate CommentSafe(v: string, q: Quote)
    decreases |v|
  {
    v == "" ||
    if v[0] == '"' then CommentSafe(v[1..], Step(Step(q, '\\'), '"'))
    else !Cuts(q, v[0]) && CommentSafe(v[1..], Step(q, v[0]))
  }

  /** A value the reader gives back: an integer, or comment-safe. */
  predicate Readable(v: string) {
    IsInteger(v) || CommentSafe(v, INSIDE)
  }

  lemma {:induction false} EscapedScan(v: string, q: Quote)
    ensures CutAt(Escape(v) + "\"", q) == |Escape(v)| + 1 <==> CommentSafe(v, q)
    decreases |v|
  {
    if v != "" {
      var rest := Escape(v[1..]) + "\"";
      var head := if v[0] == '"' then "\\\"" else [v[0]];
      assert Escape(v) + "\"" == head + rest;
      CutConcat(head, rest, q);
      assert head[1..] == if v[0] == '"' then "\"" else "";
      assert v[0] == '"' ==> "\""[1..] == "" && head[1..][0] == '"';
      EscapedScan(v[1..], Steps(q, head));
    }
  }

  lemma {:induction false} UnescapeEscape(v: string)
    ensures Unescape(Escape(v)) == v
  {
    if v != "" {
      UnescapeEscape(v[1..]);
      var e := Escape(v);
      if v[0] == '"' {
        assert e[2..] == Escape(v[1..]);
      } else {
        assert e[1..] == Escape(v[1..]);
        if v[0] == '\\' && |v| > 1 { assert e[1] != '"'; }
      }
    }
  }

  function Hashes(s: string): nat {
    if s == "" then 0 else (if s[0] == '#' then 1 else 0) + Hashes(s[1..])
  }

  lemma {:induction false} HashesConcat(a: string, b: string)
    ensures Hashes(a + b) == Hashes(a) + Hashes(b)
  {
    if a == "" { assert a + b == b; } else { assert (a + b)[1..] == a[1..] + b; HashesConcat(a[1..], b); }
  }

  lemma {:induction false} HashesEscape(v: string)
    ensures Hashes(Escape(v)) == Hashes(v)
  {
    if v != "" {
      HashesEscape(v[1..]);
      HashesConcat(if v[0] == '"' then "\\\"" else [v[0]], Escape(v[1..]));
      assert "\\\""[1..] == "\"" && Hashes("\"") == 0;
    }
  }

  lemma {:induction false} HashesUnescape(s: string)
    ensures Hashes(Unescape(s)) <= Hashes(s)
    decreases |s|
  {
    if s != "" {
      if |s| >= 2 && s[0] == '\\' && s[1] == '"' {
        HashesUnescape(s[2..]);
        assert s[1..][1..] == s[2..] && s[1..][0] == '"';
        HashesConcat("\"", Unescape(s[2..]));
      } else {
        HashesUnescape(s[1..]);
        HashesConcat([s[0]], Unescape(s[1..]));
      }
    }
  }

  /** Reading a value never adds a `#`. */
  lemma HashesRead(s: string)
    ensures Hashes(Reader.Unquote(Trim(s))) <= Hashes(s)
  {
    hide Unescape, Trim, IsSpace;
    var a, b := TrimParts(s);
    var t := Trim(s);
    HashesConcat(a + t, b);
    HashesConcat(a, t);
    if |t| >= 2 {
      HashesInner(t);
      HashesUnescape(t[1..|t| - 1]);
    }
  }

  lemma HashesInner(t: string)
    requires |t| >= 2
    ensures Hashes(t[1..|t| - 1]) <= Hashes(t)
  {
    hide Hashes;
    var inner := t[1..|t| - 1];
    assert t == [t[0]] + inner + [t[|t| - 1]];
    HashesConcat([t[0]] + inner, [t[|t| - 1]]);
    HashesConcat([t[0]], inner);
  }

  /** Where the scanner cuts stands a `#`. */
  lemma {:induction false} CutIsHash(s: string, q: Quote)
    ensures CutAt(s, q) < |s| ==> s[CutAt(s, q)] == '#'
    decreases |s|
  {
    if s != "" && !Cuts(q, s[0]) { CutIsHash(s[1..], Step(q, s[0])); }
  }

  lemma IntegerPlain(v: string)
    requires IsInteger(v)
    ensures v != "" && PlainText(v) && Solid(v) && NoChar(v, '\n') && NoChar(v, '\r')
    ensures Reader.Unquote(v) == v
  {
    var t := if v[0] == '-' || v[0] == '+' then v[1..] else v;
    assert AllDigits(v) || (|v| > 1 && (v[0] == '-' || v[0] == '+') && AllDigits(v[1..]));
    forall i | 0 <= i < |v| ensures IsDigit(v[i]) || v[i] == '-' || v[i] == '+' {
      if !AllDigits(v) && i > 0 { assert v[i] == v[1..][i - 1]; }
    }
  }

  /** A written value is read back exactly when it is readable. */
  lemma ReadBack(c: Change)
    requires PlainKey(c.key)
    ensures ReadLine(Rendered(c, Toml)).Some? && ReadLine(Rendered(c, Toml)).value.key == c.key
    ensures ReadLine(Rendered(c, Toml)).value.value == c.value <==> Readable(c.value)
  {
    hide CommentSafe, IsInteger, Escape, Reader.Unquote;
    var rv := RenderValue(c.value, Toml);
    ReadRendered(c.key, rv);
    assert Rendered(c, Toml) == c.key + " = " + rv;
    if IsInteger(c.value) {
      IntegerPlain(c.value);
      PlainScan(rv);
      assert rv[..|rv|] == rv;
      TrimOf(" ", c.value, "");
      assert " " + c.value + "" == " " + rv;
    } else {
      QuotedRead(c.value);
    }
  }

  lemma ReadRendered(k: string, rv: string)
    requires PlainKey(k)
    ensures ReadLine(k + " = " + rv) == Some(Entry(k, Reader.Unquote(Trim(" " + rv[..CutAt(rv, OUTSIDE)]))))
  {
    hide Reader.Unquote, PlainText, CutAt, ReadStripped;
    var raw, n := k + " = " + rv, CutAt(rv, OUTSIDE);
    var head := k + " = ";
    EqualsPlain();
    PlainConcat(k, " = ");
    CutAfterPlain(head, rv);
    assert raw[..CutAt(raw, OUTSIDE)] == (k + " ") + "=" + (" " + rv[..n]);
    SpacedKey(k);
    ReadParts(k + " ", " " + rv[..n]);
  }

  lemma QuotedRead(v: string)
    ensures var rv := "\"" + Escape(v) + "\"";
            Reader.Unquote(Trim(" " + rv[..CutAt(rv, OUTSIDE)])) == v <==> CommentSafe(v, INSIDE)
  {
    hide Escape, Unescape, Trim, CommentSafe;
    var e := Escape(v);
    var rv := "\"" + e + "\"";
    var n := CutAt(rv, OUTSIDE);
    assert rv == "\"" + (e + "\"");
    assert rv[0] == '"' && rv[1..] == e + "\"";
    EscapedScan(v, INSIDE);
    assert n == 1 + CutAt(e + "\"", INSIDE);
    if CommentSafe(v, INSIDE) {
      assert rv[..n] == rv;
      assert " " + rv == " " + rv + "";
      TrimOf(" ", rv, "");
      assert rv[1..|rv| - 1] == e;
      UnescapeEscape(v);
    } else {
      CutLosesHash(v, rv, n);
    }
  }

  lemma CutLosesHash(v: string, rv: string, n: nat)
    requires rv == "\"" + Escape(v) + "\"" && n == CutAt(rv, OUTSIDE) && n < |rv|
    ensures Reader.Unquote(Trim(" " + rv[..n])) != v
  {
    hide Reader.Unquote, Escape;
    CutIsHash(rv, OUTSIDE);
    assert rv == rv[..n] + ("#" + rv[n + 1..]);
    HashesConcat(rv[..n], "#" + rv[n + 1..]);
    HashesConcat(" ", rv[..n]);
    HashesConcat("\"" + Escape(v), "\"");
    HashesConcat("\"", Escape(v));
    HashesEscape(v);
    HashesRead(" " + rv[..n]);
  }

  /** It is enough that no backslash stands directly before a double quote, or that there is no `#`. */
  lemma {:induction false} SafeWhen(v: string, q: Quote)
    requires NoChar(v, '#')
             || (q.inD && !q.inS && (q.escaped && v != "" ==> v[0] != '"')
                 && forall i :: 0 <= i < |v| - 1 && v[i] == '\\' ==> v[i + 1] != '"')
    ensures CommentSafe(v, q)
    decreases |v|
  {
    if v != "" {
      SafeWhen(v[1..], if v[0] == '"' then Step(Step(q, '\\'), '"') else Step(q, v[0]));
    }
  }

  /** A value that is written and not read back. */
  lemma UnreadableValue()
    ensures !Readable("a\\\"#b")
  {
    var v := "a\\\"#b";
    assert v[1..] == "\\\"#b" && v[1..][1..] == "\"#b" && v[1..][1..][1..] == "#b";
    assert !CommentSafe("#b", OUTSIDE);
    assert !IsInteger(v) by { assert !IsDigit(v[0]); }
  }
}
