/** Cutting the JSON document out of an API reply that has other text after it
    (acctdns.rs), for every document the grammar of RFC 8259 allows. */
module JsonScan {
  import opened Options
  import opened Text

  // ---- documents (sections 2 to 7 of RFC 8259) ----------------------------------------

  /** A character of a string: itself, or a backslash and the character after it. */
  datatype StrChar = Plain(c: char) | Escaped(c: char)

  datatype Doc =
    | Word(text: string)                       // a number or a literal
    | Str(chars: seq<StrChar>)
    | Arr(space: string, items: Items)
    | Obj(space: string, fields: Fields)
    | Spaced(before: string, doc: Doc, after: string)

  datatype Items = NoItems | Item(doc: Doc, rest: Items)
  datatype Fields = NoFields | Field(before: string, key: seq<StrChar>, after: string, value: Doc, rest: Fields)

  /** Text the scan passes over outside strings: white space, numbers, literals. */
  predicate Quiet(s: string) {
    forall i :: 0 <= i < |s| ==> s[i] != '"' && s[i] != '{' && s[i] != '}'
  }

  predicate StringOk(chars: seq<StrChar>) {
    forall i :: 0 <= i < |chars| ==> chars[i].Plain? ==> chars[i].c != '"' && chars[i].c != '\\'
  }

  predicate Ok(d: Doc) {
    match d
    case Word(text) => Quiet(text)
    case Str(chars) => StringOk(chars)
    case Arr(space, items) => Quiet(space) && ItemsOk(items)
    case Obj(space, fields) => Quiet(space) && FieldsOk(fields)
    case Spaced(before, doc, after) => Quiet(before) && Ok(doc) && Quiet(after)
  }

  predicate ItemsOk(items: Items) {
    match items
    case NoItems => true
    case Item(doc, rest) => Ok(doc) && ItemsOk(rest)
  }

  predicate FieldsOk(fields: Fields) {
    match fields
    case NoFields => true
    case Field(before, key, after, value, rest) =>
      Quiet(before) && StringOk(key) && Quiet(after) && Ok(value) && FieldsOk(rest)
  }

  function CharsText(chars: seq<StrChar>): string {
    if chars == [] then ""
    else (match chars[0] case Plain(c) => [c] case Escaped(c) => ['\\', c]) + CharsText(chars[1..])
  }

  function StringText(chars: seq<StrChar>): string {
    "\"" + CharsText(chars) + "\""
  }

  function DocText(d: Doc): string {
    match d
    case Word(text) => text
    case Str(chars) => StringText(chars)
    case Arr(space, items) => "[" + (space + (ItemsText(items) + "]"))
    case Obj(space, fields) => "{" + (space + (FieldsText(fields) + "}"))
    case Spaced(before, doc, after) => before + (DocText(doc) + after)
  }

  function ItemsText(items: Items): string {
    match items
    case NoItems => ""
    case Item(doc, rest) => DocText(doc) + (if rest == NoItems then "" else "," + ItemsText(rest))
  }

  function FieldsText(fields: Fields): string {
    match fields
    case NoFields => ""
    case Field(before, key, after, value, rest) =>
      before + (StringText(key)
          + (after + (":" + (DocText(value) + (if rest == NoFields then "" else "," + FieldsText(rest))))))
  }

  // ---- the scan ---------------------------------------------------------------------------

  /** Open braces, whether inside a string, whether after a backslash there. */
  datatype Scan = Scan(depth: nat, inStr: bool, esc: bool)

  function Step(q: Scan, c: char): Scan
    requires q.depth > 0 || c != '}' || q.inStr
  {
    if c == '\\' && q.inStr then q.(esc := !q.esc)
    else
      var r := if c == '"' && !q.esc then q.(inStr := !q.inStr)
               else if c == '{' && !q.inStr then q.(depth := q.depth + 1)
               else if c == '}' && !q.inStr then q.(depth := q.depth - 1)
               else q;
      if c != '\\' then r.(esc := false) else r
  }

  /** Where the scan, with braces open, first comes back to none. */
  function Closing(s: string, q: Scan): (at: Option<nat>)
    requires q.depth > 0
    ensures at.Some? ==> at.value < |s|
    decreases |s|
  {
    if s == "" then None
    else if s[0] == '}' && !q.inStr && q.depth == 1 then Some(0)
    else Shift(1, Closing(s[1..], Step(q, s[0])))
  }

  function Shift(n: nat, at: Option<nat>): Option<nat> {
    match at case None => None case Some(i) => Some(n + i)
  }

  const OPEN := Scan(1, false, false)

  /** The balanced object a reply starts with, after white space. */
  function Document(stdout: string): Option<string> {
    var t := TrimStart(stdout);
    if t == "" || t[0] != '{' then None
    else match Closing(t[1..], OPEN)
         case None => None
         case Some(i) => Some(t[..i + 2])
  }

  /** The reply's document: the whole of it, or the balanced object it starts with.
      The depth never goes below zero, whatever the text. */
  method ParseApiOutput<J>(stdout: string, parse: string -> Option<J>) returns (v: Option<J>)
    ensures v == if parse(stdout).Some? then parse(stdout)
                 else match Document(stdout) case None => None case Some(doc) => parse(doc)
  {
    hide Closing, TrimStart;
    if parse(stdout).Some? { return parse(stdout); }
    var t := TrimStart(stdout);
    if t != "" && t[0] == '{' {
      var depth: nat, inStr, esc := 0, false, false;
      for i := 0 to |t|
        invariant i == 0 ==> depth == 0 && !inStr && !esc
        invariant i > 0 ==> depth > 0 && Closing(t[1..], OPEN) == Shift(i - 1, Closing(t[i..], Scan(depth, inStr, esc)))
      {
        var c := t[i];
        if i > 0 { ScanStep(t, i, Scan(depth, inStr, esc)); } else { ScanStart(t); }
        if c == '\\' && inStr {
          esc := !esc;
        } else if c == '"' && !esc {
          inStr := !inStr;
        } else if c == '{' && !inStr {
          depth := depth + 1;
        } else if c == '}' && !inStr {
          depth := depth - 1;
          if depth == 0 {
            return parse(t[..i + 1]);
          }
        }
        if c != '\\' {
          esc := false;
        }
      }
      ScanEnd(t, Scan(depth, inStr, esc));
    }
    return None;
  }

  lemma ScanStep(t: string, i: nat, q: Scan)
    requires 0 < i < |t| && q.depth > 0
    ensures if t[i] == '}' && !q.inStr && q.depth == 1 then Shift(i - 1, Closing(t[i..], q)) == Some(i - 1)
            else Shift(i - 1, Closing(t[i..], q)) == Shift(i, Closing(t[i + 1..], Step(q, t[i])))
  {
    var s := t[i..];
    assert s[0] == t[i] && s[1..] == t[i + 1..];
    if !(t[i] == '}' && !q.inStr && q.depth == 1) {
      assert Closing(s, q) == Shift(1, Closing(s[1..], Step(q, s[0])));
      ShiftTwice(i - 1, 1, Closing(s[1..], Step(q, s[0])));
    }
  }

  lemma ScanStart(t: string)
    requires t != ""
    ensures Closing(t[1..], OPEN) == Shift(0, Closing(t[0 + 1..], OPEN))
  {
  }

  lemma ScanEnd(t: string, q: Scan)
    requires q.depth > 0
    ensures Closing(t[|t|..], q) == None
  {
  }

  // ---- the scan over a document -----------------------------------------------------------------

  lemma ShiftTwice(m: nat, n: nat, at: Option<nat>)
    ensures Shift(m, Shift(n, at)) == Shift(m + n, at)
  {
  }

  lemma {:induction false} ScanQuiet(s: string, rest: string, q: Scan)
    requires Quiet(s) && q.depth > 0 && !q.inStr && !q.esc
    ensures Closing(s + rest, q) == Shift(|s|, Closing(rest, q))
    decreases |s|
  {
    if s == "" {
      assert s + rest == rest;
    } else {
      assert (s + rest)[1..] == s[1..] + rest && (s + rest)[0] == s[0];
      ScanQuiet(s[1..], rest, q);
    }
  }

  /** Inside a string nothing counts, and its end is found. */
  lemma {:induction false} ScanChars(chars: seq<StrChar>, rest: string, q: Scan)
    requires StringOk(chars) && q.depth > 0 && q.inStr && !q.esc
    ensures Closing(CharsText(chars) + "\"" + rest, q)
            == Shift(|CharsText(chars)| + 1, Closing(rest, q.(inStr := false)))
    decreases |chars|
  {
    var s := CharsText(chars) + "\"" + rest;
    if chars == [] {
      assert s[1..] == rest && s[0] == '"';
    } else {
      var tail := CharsText(chars[1..]) + "\"" + rest;
      ScanChars(chars[1..], rest, q);
      match chars[0]
      case Plain(c) =>
        assert s[0] == c && s[1..] == tail;
      case Escaped(c) =>
        assert s[0] == '\\' && s[1] == c && s[1..][1..] == tail;
        assert Step(Step(q, '\\'), c) == q;
    }
  }

  lemma ScanString(chars: seq<StrChar>, rest: string, q: Scan)
    requires StringOk(chars) && q.depth > 0 && !q.inStr && !q.esc
    ensures Closing(StringText(chars) + rest, q) == Shift(|StringText(chars)|, Closing(rest, q))
  {
    var s := StringText(chars) + rest;
    assert s[0] == '"' && s[1..] == CharsText(chars) + "\"" + rest;
    assert Closing(s, q) == Shift(1, Closing(s[1..], Step(q, '"')));
    ScanChars(chars, rest, q.(inStr := true));
  }

  /** `s` stands before `more`: the scan passes over it and goes on. */
  ghost predicate Passes(s: string, more: string, q: Scan)
    requires q.depth > 0
  {
    Closing(s + more, q) == Shift(|s|, Closing(more, q))
  }

  lemma PassesThen(a: string, b: string, rest: string, q: Scan)
    requires q.depth > 0 && Passes(a, b + rest, q) && Passes(b, rest, q)
    ensures Passes(a + b, rest, q)
  {
    hide Closing;
    assert (a + b) + rest == a + (b + rest);
  }

  lemma PassQuiet(s: string, b: string, rest: string, q: Scan)
    requires Quiet(s) && q.depth > 0 && !q.inStr && !q.esc && Passes(b, rest, q)
    ensures Passes(s + b, rest, q)
  {
    hide Closing;
    ScanQuiet(s, b + rest, q);
    PassesThen(s, b, rest, q);
  }

  lemma PassNothing(rest: string, q: Scan)
    requires q.depth > 0
    ensures Passes("", rest, q)
  {
    assert "" + rest == rest;
  }

  /** A closing character at the end. */
  lemma PassClose(b: string, rest: string, q: Scan)
    requires q.depth > 0 && !q.inStr && !q.esc && Passes(b, "]" + rest, q)
    ensures Passes(b + "]", rest, q)
  {
    hide Closing;
    ScanQuiet("]", rest, q);
    PassesThen(b, "]", rest, q);
  }

  /** A whole document, wherever it stands, leaves the scan as it was. */
  lemma {:induction false} ScanDoc(d: Doc, rest: string, q: Scan)
    requires Ok(d) && q.depth > 0 && !q.inStr && !q.esc
    ensures Passes(DocText(d), rest, q)
    decreases d
  {
    hide Closing, StringText, Quiet, StringOk, Passes;
    match d
    case Word(text) => PassWord(text, rest, q);
    case Str(chars) => PassString(chars, rest, q);
    case Arr(space, items) =>
      ScanItems(items, "]" + rest, q);
      PassClose(ItemsText(items), rest, q);
      PassQuiet(space, ItemsText(items) + "]", rest, q);
      BracketQuiet();
      PassQuiet("[", space + (ItemsText(items) + "]"), rest, q);
    case Obj(space, fields) =>
      var q' := q.(depth := q.depth + 1);
      ScanFields(fields, "}" + rest, q');
      PassQuiet(space, FieldsText(fields), "}" + rest, q');
      PassBraces(space, FieldsText(fields), rest, q);
    case Spaced(before, doc, after) =>
      PassWord(after, rest, q);
      ScanDoc(doc, after + rest, q);
      PassesThen(DocText(doc), after, rest, q);
      PassQuiet(before, DocText(doc) + after, rest, q);
  }

  lemma BracketQuiet()
    ensures Quiet("[") && Quiet(",") && Quiet(":")
  {
  }

  lemma PassWord(text: string, rest: string, q: Scan)
    requires Quiet(text) && q.depth > 0 && !q.inStr && !q.esc
    ensures Passes(text, rest, q)
  {
    ScanQuiet(text, rest, q);
  }

  lemma PassString(chars: seq<StrChar>, rest: string, q: Scan)
    requires StringOk(chars) && q.depth > 0 && !q.inStr && !q.esc
    ensures Passes(StringText(chars), rest, q)
  {
    ScanString(chars, rest, q);
  }

  /** The braces of an object open and close one level. */
  lemma PassBraces(space: string, inner: string, rest: string, q: Scan)
    requires q.depth > 0 && !q.inStr && !q.esc
    requires Passes(space + inner, "}" + rest, q.(depth := q.depth + 1))
    ensures Passes("{" + (space + (inner + "}")), rest, q)
  {
    hide Closing;
    var body := space + inner;
    assert ("{" + (space + (inner + "}"))) + rest == "{" + (body + ("}" + rest));
    ScanOpen(body + ("}" + rest), q);
    ScanClose(rest, q.(depth := q.depth + 1));
  }

  lemma ScanOpen(s: string, q: Scan)
    requires q.depth > 0 && !q.inStr && !q.esc
    ensures Closing("{" + s, q) == Shift(1, Closing(s, q.(depth := q.depth + 1)))
  {
    var t := "{" + s;
    assert t[0] == '{' && t[1..] == s;
    assert Closing(t, q) == Shift(1, Closing(t[1..], Step(q, '{')));
  }

  lemma ScanClose(s: string, q: Scan)
    requires q.depth > 1 && !q.inStr && !q.esc
    ensures Closing("}" + s, q) == Shift(1, Closing(s, q.(depth := q.depth - 1)))
  {
    var t := "}" + s;
    assert t[0] == '}' && t[1..] == s;
    assert Closing(t, q) == Shift(1, Closing(t[1..], Step(q, '}')));
  }

  lemma {:induction false} ScanItems(items: Items, rest: string, q: Scan)
    requires ItemsOk(items) && q.depth > 0 && !q.inStr && !q.esc
    ensures Passes(ItemsText(items), rest, q)
    decreases items
  {
    hide Closing, Passes, Quiet;
    match items
    case NoItems => PassNothing(rest, q);
    case Item(doc, more) =>
      var tail := if more == NoItems then "" else "," + ItemsText(more);
      if more == NoItems {
        PassNothing(rest, q);
      } else {
        ScanItems(more, rest, q);
        BracketQuiet();
        PassQuiet(",", ItemsText(more), rest, q);
      }
      ScanDoc(doc, tail + rest, q);
      PassesThen(DocText(doc), tail, rest, q);
  }

  lemma {:induction false} ScanFields(fields: Fields, rest: string, q: Scan)
    requires FieldsOk(fields) && q.depth > 0 && !q.inStr && !q.esc
    ensures Passes(FieldsText(fields), rest, q)
    decreases fields
  {
    hide Closing, StringText, Quiet, StringOk, Passes;
    BracketQuiet();
    match fields
    case NoFields => PassNothing(rest, q);
    case Field(before, key, after, value, more) =>
      var tail := if more == NoFields then "" else "," + FieldsText(more);
      if more == NoFields {
        PassNothing(rest, q);
      } else {
        ScanFields(more, rest, q);
        PassQuiet(",", FieldsText(more), rest, q);
      }
      var v := DocText(value) + tail;
      ScanDoc(value, tail + rest, q);
      PassesThen(DocText(value), tail, rest, q);
      PassQuiet(":", v, rest, q);
      PassQuiet(after, ":" + v, rest, q);
      PassString(key, (after + (":" + v)) + rest, q);
      PassesThen(StringText(key), after + (":" + v), rest, q);
      PassQuiet(before, StringText(key) + (after + (":" + v)), rest, q);
  }

  /** For every object and whatever follows it, the scan first closes exactly at the
      object's own brace. */
  lemma DocumentEnd(space: string, fields: Fields, tail: string)
    requires Ok(Obj(space, fields))
    ensures var doc := DocText(Obj(space, fields));
            && doc != "" && doc[0] == '{'
            && Closing((doc + tail)[1..], OPEN) == Some(|doc| - 2)
  {
    hide Closing;
    var inner := FieldsText(fields);
    var doc := DocText(Obj(space, fields));
    assert (doc + tail)[1..] == (space + inner) + ("}" + tail);
    ScanFields(fields, "}" + tail, OPEN);
    PassQuiet(space, inner, "}" + tail, OPEN);
    CloseNow(tail);
  }

  lemma CloseNow(tail: string)
    ensures Closing("}" + tail, OPEN) == Some(0)
  {
    assert ("}" + tail)[0] == '}';
  }

  /** What is handed to the parser is the document itself, not a character less or more. */
  lemma DocumentExtracted(before: string, space: string, fields: Fields, tail: string)
    requires Ok(Obj(space, fields)) && AllSpace(before)
    ensures var doc := DocText(Obj(space, fields)); Document(before + doc + tail) == Some(doc)
  {
    var doc := DocText(Obj(space, fields));
    DocumentEnd(space, fields, tail);
    assert before + doc + tail == before + (doc + tail);
    assert !IsSpace('{');
    TrimStartOf(before, doc + tail);
  }
}
