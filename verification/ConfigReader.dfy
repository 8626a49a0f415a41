/** The reader of flat `key = value` files (config.rs): comments stripped
    outside quotes, sections skipped, values unquoted, last occurrence wins. */
module ConfigReader {
  import opened Options
  import opened Text

  datatype Entry = Entry(key: string, value: string)

  /** Where the comment scanner stands: inside single or double quotes, after a backslash. */
  datatype Quote = Quote(inS: bool, inD: bool, escaped: bool)

  const OUTSIDE := Quote(false, false, false)
  const INSIDE := Quote(false, true, false)

  predicate Cuts(q: Quote, c: char) {
    !q.escaped && c == '#' && !q.inS && !q.inD
  }

  function Step(q: Quote, c: char): Quote {
    if q.escaped then q.(escaped := false)
    else if c == '\\' && q.inD then q.(escaped := true)
    else if c == '\'' && !q.inD then q.(inS := !q.inS)
    else if c == '"' && !q.inS then q.(inD := !q.inD)
    else q
  }

  function Steps(q: Quote, s: string): Quote
    decreases |s|
  {
    if s == "" then q else Steps(Step(q, s[0]), s[1..])
  }

  /** How much of `s` comes before a comment, scanning from `q`. */
  function CutAt(s: string, q: Quote): (n: nat)
    ensures n <= |s|
  {
    if s == "" || Cuts(q, s[0]) then 0 else 1 + CutAt(s[1..], Step(q, s[0]))
  }

  /** The comment scanner. */
  method StripComment(line: string) returns (s: string)
    ensures s == line[..CutAt(line, OUTSIDE)]
  {
    var inS, inD, escaped := false, false, false;
    for i := 0 to |line|
      invariant CutAt(line, OUTSIDE) == i + CutAt(line[i..], Quote(inS, inD, escaped))
    {
      var ch := line[i];
      assert line[i..][1..] == line[i + 1..];
      if escaped {
        escaped := false;
        continue;
      }
      if ch == '\\' && inD {
        escaped := true;
      } else if ch == '\'' && !inD {
        inS := !inS;
      } else if ch == '"' && !inS {
        inD := !inD;
      } else if ch == '#' && !inS && !inD {
        return line[..i];
      }
    }
    assert line[|line|..] == "" && line[..|line|] == line;
    return line;
  }

  /** `replace("\\\"", "\"")` */
  function Unescape(s: string): string {
    if s == "" then ""
    else if |s| >= 2 && s[0] == '\\' && s[1] == '"' then "\"" + Unescape(s[2..])
    else [s[0]] + Unescape(s[1..])
  }

  function Unquote(s: string): string {
    if |s| >= 2 && s[0] == '"' && s[|s| - 1] == '"' then Unescape(s[1..|s| - 1])
    else if |s| >= 2 && s[0] == '\'' && s[|s| - 1] == '\'' then s[1..|s| - 1]
    else s
  }

  /** What one line, with its comment stripped, says. */
  function ReadStripped(stripped: string): Option<Entry> {
    var line := Trim(stripped);
    var eq := IndexOf(line, '=');
    if line == "" || line[0] == '[' || eq == |line| || Trim(line[..eq]) == "" then None
    else Some(Entry(Trim(line[..eq]), Unquote(Trim(line[eq + 1..]))))
  }

  function ReadLine(raw: string): Option<Entry> {
    ReadStripped(raw[..CutAt(raw, OUTSIDE)])
  }

  function ReadLines(lines: seq<string>): seq<Entry> {
    if lines == [] then []
    else (match ReadLine(lines[0]) case Some(e) => [e] case None => []) + ReadLines(lines[1..])
  }

  method ParseFlat(text: string) returns (out: seq<Entry>)
    ensures out == ReadLines(Lines(text))
  {
    hide ReadLine, ReadStripped, CutAt, Lines;
    out := [];
    var lines := Lines(text);
    for i := 0 to |lines|
      invariant ReadLines(lines) == out + ReadLines(lines[i..])
    {
      var stripped := StripComment(lines[i]);
      assert lines[i..][1..] == lines[i + 1..];
      ReadLineOf(lines[i]);
      match ReadStripped(stripped) {
        case None =>
        case Some(e) => out := out + [e];
      }
    }
  }

  lemma ReadLineOf(raw: string)
    ensures ReadLine(raw) == ReadStripped(raw[..CutAt(raw, OUTSIDE)])
  {
  }

  /** What loading leaves for each key: the last entry. */
  function LastWins(entries: seq<Entry>): map<string, string> {
    if entries == [] then map[]
    else LastWins(entries[..|entries| - 1])[entries[|entries| - 1].key := entries[|entries| - 1].value]
  }
}
