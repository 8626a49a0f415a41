/** Text as the Rust standard library cuts it: `trim`, `lines`, `join`, `find`. */
module Text {

  /** Unicode White_Space, which `str::trim` strips. */
  predicate IsSpace(c: char) {
    var n := c as int;
    9 <= n <= 13 || n == 0x20 || n == 0x85 || n == 0xA0 || n == 0x1680 || 0x2000 <= n <= 0x200A
    || n == 0x2028 || n == 0x2029 || n == 0x202F || n == 0x205F || n == 0x3000
  }

  predicate AllSpace(s: string) {
    forall i :: 0 <= i < |s| ==> IsSpace(s[i])
  }

  /** Neither end is white space. */
  predicate Solid(s: string) {
    s != "" ==> !IsSpace(s[0]) && !IsSpace(s[|s| - 1])
  }

  function TrimStart(s: string): string {
    if s != "" && IsSpace(s[0]) then TrimStart(s[1..]) else s
  }

  function TrimEnd(s: string): string {
    if s != "" && IsSpace(s[|s| - 1]) then TrimEnd(s[..|s| - 1]) else s
  }

  function Trim(s: string): string {
    TrimEnd(TrimStart(s))
  }

  /** Index of the first `c`, or the length when there is none. */
  function IndexOf(s: string, c: char): (i: nat)
    ensures i <= |s| && (i < |s| ==> s[i] == c) && forall j :: 0 <= j < i ==> s[j] != c
  {
    if s == "" || s[0] == c then 0 else 1 + IndexOf(s[1..], c)
  }

  function StripCr(s: string): string {
    if s != "" && s[|s| - 1] == '\r' then s[..|s| - 1] else s
  }

  /** `str::lines`: the line ends, and a carriage return before one, are dropped. */
  function Lines(text: string): seq<string>
    decreases |text|
  {
    if text == "" then []
    else
      var i := IndexOf(text, '\n');
      if i == |text| then [text] else [StripCr(text[..i])] + Lines(text[i + 1..])
  }

  /** `join` with one line end between the lines. */
  function JoinLines(lines: seq<string>): string {
    if lines == [] then "" else if |lines| == 1 then lines[0] else lines[0] + "\n" + JoinLines(lines[1..])
  }

  predicate NoChar(s: string, c: char) {
    forall i :: 0 <= i < |s| ==> s[i] != c
  }

  predicate EndsInNewline(text: string) {
    text != "" && text[|text| - 1] == '\n'
  }

  /** `to_ascii_lowercase` */
  function Lower(c: char): char {
    if 'A' <= c <= 'Z' then (c as int + 32) as char else c
  }

  function LowerAll(s: string): (r: string)
    ensures |r| == |s| && forall i :: 0 <= i < |s| ==> r[i] == Lower(s[i])
  {
    seq(|s|, i requires 0 <= i < |s| => Lower(s[i]))
  }

  // ---- words ------------------------------------------------------------------------

  predicate IsWord(s: string) {
    s != "" && forall i :: 0 <= i < |s| ==> !IsSpace(s[i])
  }

  /** Length of the word a text starts with. */
  function WordLength(s: string): (n: nat)
    ensures n <= |s| && (forall i :: 0 <= i < n ==> !IsSpace(s[i])) && (n < |s| ==> IsSpace(s[n]))
  {
    if s == "" || IsSpace(s[0]) then 0 else 1 + WordLength(s[1..])
  }

  /** `split_whitespace` */
  function Words(s: string): seq<string>
    decreases |s|
  {
    if s == "" then []
    else if IsSpace(s[0]) then Words(s[1..])
    else [s[..WordLength(s)]] + Words(s[WordLength(s)..])
  }

  function JoinWords(words: seq<string>): string {
    if words == [] then "" else if |words| == 1 then words[0] else words[0] + " " + JoinWords(words[1..])
  }

  lemma {:induction false} WordsAreWords(s: string)
    ensures forall w :: w in Words(s) ==> IsWord(w)
    decreases |s|
  {
    if s != "" {
      if IsSpace(s[0]) { WordsAreWords(s[1..]); } else { WordsAreWords(s[WordLength(s)..]); }
    }
  }

  lemma {:induction false} WordLengthOf(w: string, rest: string)
    requires (forall i :: 0 <= i < |w| ==> !IsSpace(w[i])) && (rest == "" || IsSpace(rest[0]))
    ensures WordLength(w + rest) == |w|
  {
    hide IsSpace;
    if w == "" {
      assert w + rest == rest;
    } else {
      assert (w + rest)[1..] == w[1..] + rest && (w + rest)[0] == w[0];
      WordLengthOf(w[1..], rest);
    }
  }

  lemma {:induction false} WordThen(w: string, rest: string)
    requires IsWord(w) && (rest == "" || IsSpace(rest[0]))
    ensures Words(w + rest) == [w] + Words(rest)
  {
    WordLengthOf(w, rest);
    var n := |w|;
    assert (w + rest)[..n] == w && (w + rest)[n..] == rest && (w + rest)[0] == w[0];
  }

  lemma {:induction false} WordsOfJoin(words: seq<string>)
    requires forall i :: 0 <= i < |words| ==> IsWord(words[i])
    ensures Words(JoinWords(words)) == words
  {
    if |words| == 1 {
      assert words[0] + "" == words[0];
      WordThen(words[0], "");
    } else if |words| > 1 {
      WordsOfJoin(words[1..]);
      var rest := " " + JoinWords(words[1..]);
      assert JoinWords(words) == words[0] + rest && rest[1..] == JoinWords(words[1..]);
      WordThen(words[0], rest);
      assert words == [words[0]] + words[1..];
    }
  }

  lemma Associative<T>(a: seq<T>, b: seq<T>, c: seq<T>)
    ensures (a + b) + c == a + (b + c)
  {
  }

  // ---- trimming -----------------------------------------------------------------

  lemma {:induction false} TrimStartParts(s: string) returns (a: string)
    ensures s == a + TrimStart(s) && AllSpace(a)
    ensures TrimStart(s) != "" ==> !IsSpace(TrimStart(s)[0])
  {
    if s != "" && IsSpace(s[0]) {
      a := TrimStartParts(s[1..]);
      a := [s[0]] + a;
    } else {
      a := "";
    }
  }

  lemma {:induction false} TrimEndParts(s: string) returns (b: string)
    ensures s == TrimEnd(s) + b && AllSpace(b)
    ensures TrimEnd(s) != "" ==> !IsSpace(TrimEnd(s)[|TrimEnd(s)| - 1])
  {
    if s != "" && IsSpace(s[|s| - 1]) {
      b := TrimEndParts(s[..|s| - 1]);
      b := b + [s[|s| - 1]];
    } else {
      b := "";
    }
  }

  lemma TrimParts(s: string) returns (a: string, b: string)
    ensures s == a + Trim(s) + b && AllSpace(a) && AllSpace(b) && Solid(Trim(s))
  {
    a := TrimStartParts(s);
    b := TrimEndParts(TrimStart(s));
    assert Trim(s) != "" ==> Trim(s)[0] == TrimStart(s)[0];
  }

  lemma {:induction false} TrimStartOf(a: string, m: string)
    requires AllSpace(a) && (m != "" ==> !IsSpace(m[0]))
    ensures TrimStart(a + m) == m
  {
    if a == "" {
      assert a + m == m;
    } else {
      assert (a + m)[1..] == a[1..] + m;
      TrimStartOf(a[1..], m);
    }
  }

  lemma {:induction false} TrimEndOf(m: string, b: string)
    requires AllSpace(b) && (m != "" ==> !IsSpace(m[|m| - 1]))
    ensures TrimEnd(m + b) == m
  {
    if b == "" {
      assert m + b == m;
    } else {
      assert (m + b)[..|m + b| - 1] == m + b[..|b| - 1];
      TrimEndOf(m, b[..|b| - 1]);
    }
  }

  /** Trimming is decided by any split into white space, a solid middle, white space. */
  lemma TrimOf(a: string, m: string, b: string)
    requires AllSpace(a) && AllSpace(b) && Solid(m)
    ensures Trim(a + m + b) == m
  {
    if m == "" {
      assert a + m + b == (a + b) + "";
      TrimStartOf(a + b, "");
    } else {
      assert a + m + b == a + (m + b);
      TrimStartOf(a, m + b);
      TrimEndOf(m, b);
    }
  }

  lemma TrimSolid(m: string)
    requires Solid(m)
    ensures Trim(m) == m
  {
    TrimOf("", m, "");
    assert "" + m + "" == m;
  }

  lemma NoCharConcat(a: string, b: string, c: char)
    ensures NoChar(a + b, c) <==> NoChar(a, c) && NoChar(b, c)
  {
    if NoChar(a + b, c) {
      forall i | 0 <= i < |b| ensures b[i] != c { assert (a + b)[|a| + i] == b[i]; }
      forall i | 0 <= i < |a| ensures a[i] != c { assert (a + b)[i] == a[i]; }
    }
  }

  lemma SpacedKey(k: string)
    requires Trim(k) == k && NoChar(k, '=')
    ensures Trim(k + " ") == k && NoChar(k + " ", '=')
  {
    hide Trim;
    var a, b := TrimParts(k);
    TrimOf("", k, " ");
    assert "" + k + " " == k + " ";
  }

  lemma SpaceHasNone(a: string, c: char)
    requires AllSpace(a) && !IsSpace(c)
    ensures NoChar(a, c)
  {
  }

  lemma IndexOfFirst(p: string, c: char, r: string)
    requires NoChar(p, c)
    ensures IndexOf(p + [c] + r, c) == |p|
  {
    assert (p + [c] + r)[|p|] == c;
  }

  // ---- lines ----------------------------------------------------------------------

  lemma {:induction false} LinesClean(text: string)
    ensures forall l :: l in Lines(text) ==> NoChar(l, '\n')
    decreases |text|
  {
    if text != "" {
      var i := IndexOf(text, '\n');
      if i < |text| { LinesClean(text[i + 1..]); }
    }
  }

  /** The last line of a text that does not end in a line end is not empty. */
  lemma {:induction false} LastLine(text: string)
    requires text != "" && !EndsInNewline(text)
    ensures Lines(text) != [] && Lines(text)[|Lines(text)| - 1] != ""
    decreases |text|
  {
    var i := IndexOf(text, '\n');
    if i < |text| { LastLine(text[i + 1..]); }
  }

  lemma LinesStep(l: string, rest: string)
    requires NoChar(l, '\n')
    ensures Lines(l + "\n" + rest) == [StripCr(l)] + Lines(rest)
  {
    IndexOfFirst(l, '\n', rest);
    var t := l + "\n" + rest;
    assert t[..|l|] == l && t[|l| + 1..] == rest;
  }

  /** Lines once joined and cut again: a carriage return before a line end is dropped. */
  function Reread(lines: seq<string>, end: bool): (r: seq<string>)
    ensures |r| == |lines|
    ensures forall i :: 0 <= i < |lines| ==> r[i] == if i < |lines| - 1 || end then StripCr(lines[i]) else lines[i]
  {
    seq(|lines|, i requires 0 <= i < |lines| => if i < |lines| - 1 || end then StripCr(lines[i]) else lines[i])
  }

  lemma {:induction false} LinesOfJoin(lines: seq<string>, end: bool)
    requires forall l :: l in lines ==> NoChar(l, '\n')
    requires end || lines == [] || lines[|lines| - 1] != ""
    requires end ==> lines != []
    ensures Lines(JoinLines(lines) + (if end then "\n" else "")) == Reread(lines, end)
  {
    hide Lines, JoinLines, StripCr, Reread, NoChar;
    NoLines();
    if lines == [] {
      assert JoinLines(lines) + "" == "";
    } else if |lines| == 1 {
      JoinedLine(lines[0], end);
      assert lines == [lines[0]];
    } else {
      var rest := JoinLines(lines[1..]) + (if end then "\n" else "");
      LinesOfJoin(lines[1..], end);
      assert lines == [lines[0]] + lines[1..] && lines[0] in lines;
      JoinMore(lines[0], lines[1..], if end then "\n" else "");
      LinesStep(lines[0], rest);
      RereadHead(lines[0], lines[1..], end);
    }
  }

  lemma JoinedLine(l: string, end: bool)
    requires NoChar(l, '\n') && (end || l != "")
    ensures Lines(JoinLines([l]) + (if end then "\n" else "")) == Reread([l], end)
  {
    hide Lines, JoinLines, StripCr;
    JoinOne(l);
    NoLines();
    if end {
      LinesStep(l, "");
      assert l + "\n" == l + "\n" + "";
    } else {
      LastOfLines(l);
      assert l + "" == l;
    }
  }

  lemma RereadHead(l: string, lines: seq<string>, end: bool)
    requires lines != []
    ensures Reread([l] + lines, end) == [StripCr(l)] + Reread(lines, end)
  {
    hide StripCr;
  }

  lemma NoLines()
    ensures Lines("") == [] && JoinLines([]) == ""
  {
  }

  lemma LastOfLines(l: string)
    requires l != "" && NoChar(l, '\n')
    ensures Lines(l) == [l]
  {
    assert IndexOf(l, '\n') == |l|;
  }

  lemma JoinOne(l: string)
    ensures JoinLines([l]) == l
  {
  }

  lemma JoinMore(l: string, lines: seq<string>, tail: string)
    requires lines != []
    ensures JoinLines([l] + lines) + tail == l + "\n" + (JoinLines(lines) + tail)
  {
    assert ([l] + lines)[1..] == lines;
  }

  // ---- letters ------------------------------------------------------------------------

  /** Lower case, letter by letter; everything outside `A`-`Z` is kept. */
  lemma LowerLetters(i: nat, c: char)
    requires i < 26
    ensures Lower("ABCDEFGHIJKLMNOPQRSTUVWXYZ"[i]) == "abcdefghijklmnopqrstuvwxyz"[i]
    ensures c !in "ABCDEFGHIJKLMNOPQRSTUVWXYZ" ==> Lower(c) == c
  {
    var upper := "ABCDEFGHIJKLMNOPQRSTUVWXYZ";
    if 'A' <= c <= 'Z' { assert upper[c as int - 'A' as int] == c; }
  }

  /** The white space of Unicode, character by character. */
  lemma SpaceMeans(c: char)
    ensures IsSpace(c) <==>
              || c in "\t\n\r " || c in "\U{0B}\U{0C}\U{85}\U{A0}\U{1680}\U{2028}\U{2029}\U{202F}\U{205F}\U{3000}"
              || '\U{2000}' <= c <= '\U{200A}'
  {
  }
}
