/** The forms of a line the reader of flat files takes, and those it skips (config.rs). */
module ReadForms {
  import opened Options
  import opened Text
  import opened EditorLaws
  import opened ConfigReader
  import opened Lens

  // ---- where a comment starts -----------------------------------------------------------------

  /** One character at a time: a `#` outside quotes starts the comment, quotes open and close, and
      between double quotes a backslash takes the next character with it. */
  lemma CutStep(c: char, d: char, r: string)
    ensures CutAt("#" + r, OUTSIDE) == 0
    ensures c != '#' && c != '"' && c != '\'' ==> CutAt([c] + r, OUTSIDE) == 1 + CutAt(r, OUTSIDE)
    ensures c != '"' && c != '\\' ==> CutAt([c] + r, INSIDE) == 1 + CutAt(r, INSIDE)
    ensures CutAt("\"" + r, OUTSIDE) == 1 + CutAt(r, INSIDE) && CutAt("\"" + r, INSIDE) == 1 + CutAt(r, OUTSIDE)
    ensures CutAt(['\\', d] + r, INSIDE) == 2 + CutAt(r, INSIDE)
  {
    assert ("#" + r)[0] == '#' && ([c] + r)[0] == c && ([c] + r)[1..] == r && ("\"" + r)[0] == '"'
           && ("\"" + r)[1..] == r;
    var e := ['\\', d] + r;
    assert e[0] == '\\' && e[1..] == [d] + r && ([d] + r)[0] == d && ([d] + r)[1..] == r;
  }

  const SINGLE := Quote(true, false, false)

  /** A value in single quotes is passed over. */
  lemma {:induction false} CutSingle(v: string, r: string)
    requires NoChar(v, '\'')
    ensures CutAt(v + "'" + r, SINGLE) == |v| + 1 + CutAt(r, OUTSIDE)
    ensures CutAt("'" + v + "'" + r, OUTSIDE) == |v| + 2 + CutAt(r, OUTSIDE)
    decreases |v|
  {
    var s := v + "'" + r;
    if v == "" {
      assert s[0] == '\'' && s[1..] == r;
    } else {
      assert s[0] == v[0] && s[1..] == v[1..] + "'" + r;
      CutSingle(v[1..], r);
    }
    var q := "'" + v + "'" + r;
    assert q[0] == '\'' && q[1..] == s;
  }

  // ---- values -------------------------------------------------------------------------------------

  /** The blank or comment after a value. */
  predicate Tail(t: string) {
    AllSpace(t) || exists n :: 0 <= n < |t| && AllSpace(t[..n]) && t[n] == '#'
  }

  lemma TailCut(t: string)
    requires Tail(t)
    ensures AllSpace(t[..CutAt(t, OUTSIDE)])
  {
    if AllSpace(t) {
      assert t[..CutAt(t, OUTSIDE)] <= t;
    } else {
      var n :| 0 <= n < |t| && AllSpace(t[..n]) && t[n] == '#';
      SpaceOrComment(t, n);
    }
  }

  lemma {:induction false} SpaceOrComment(t: string, n: nat)
    requires n < |t| && AllSpace(t[..n]) && t[n] == '#'
    ensures CutAt(t, OUTSIDE) == n
    decreases n
  {
    if n > 0 {
      assert t[..n][0] == t[0] && IsSpace(t[0]);
      assert t[1..][..n - 1] == t[..n][1..] && t[1..][n - 1] == t[n];
      SpaceOrComment(t[1..], n - 1);
    }
  }

  /** A value in single quotes is read as it stands, whatever it holds, up to a comment behind it. */
  lemma ReadSingle(k: string, v: string, t: string)
    requires PlainKey(k) && NoChar(v, '\'') && Tail(t)
    ensures ReadLine(k + " = '" + v + "'" + t) == Some(Entry(k, v))
  {
    hide Reader.Unquote, CutAt, ReadLine, Tail, PlainKey;
    var quoted := "'" + v + "'";
    var rv := quoted + t;
    CutSingle(v, t);
    TailCut(t);
    var n := CutAt(t, OUTSIDE);
    assert rv == "'" + v + "'" + t;
    ReadRendered(k, rv);
    assert k + " = " + rv == k + " = '" + v + "'" + t;
    assert rv[..|quoted| + n] == quoted + t[..n];
    SpacedValue(quoted, t[..n]);
    SingleUnquoted(v);
  }

  lemma SpacedValue(m: string, b: string)
    requires m != "" && Solid(m) && AllSpace(b)
    ensures Trim(" " + (m + b)) == m
  {
    assert IsSpace(' ');
    TrimOf(" ", m, b);
    assert " " + m + b == " " + (m + b);
  }

  lemma SingleUnquoted(v: string)
    ensures Reader.Unquote("'" + v + "'") == v && Solid("'" + v + "'")
  {
    assert ("'" + v + "'")[1..|v| + 1] == v && !IsSpace('\'');
  }

  /** A bare value without quotes and comment sign is read without the white space around it. */
  lemma ReadBare(k: string, v: string, t: string)
    requires PlainKey(k) && PlainText(v) && (t == "" || t[0] == '#')
    ensures ReadLine(k + " = " + v + t) == Some(Entry(k, Trim(v)))
  {
    hide Reader.Unquote, ReadLine, PlainKey, Trim;
    PlainScan(v);
    CutConcat(v, t, OUTSIDE);
    var rv := v + t;
    assert CutAt(t, OUTSIDE) == 0 && rv[..|v|] == v;
    ReadRendered(k, rv);
    assert k + " = " + rv == k + " = " + v + t;
    SpaceTrimmed(v);
    BareUnquoted(v);
  }

  lemma SpaceTrimmed(v: string)
    ensures Trim(" " + v) == Trim(v)
  {
    assert (" " + v)[1..] == v && IsSpace(' ');
  }

  lemma BareUnquoted(v: string)
    requires PlainText(v)
    ensures Reader.Unquote(Trim(v)) == Trim(v)
  {
    hide Trim;
    var a, b := TrimParts(v);
    PlainConcat(a + Trim(v), b);
    PlainConcat(a, Trim(v));
  }

  /** Blank lines, comments, sections, and lines without an equals sign or a key say nothing. */
  lemma ReadsNothing(raw: string)
    ensures var t := Trim(raw[..CutAt(raw, OUTSIDE)]);
            t == "" || t[0] == '[' || NoChar(t, '=') || t[0] == '=' ==> ReadLine(raw) == None
    ensures raw != "" && raw[0] == '#' ==> ReadLine(raw) == None
  {
    hide Trim, Reader.Unquote;
    var t := Trim(raw[..CutAt(raw, OUTSIDE)]);
    if t != "" && t[0] == '=' { assert IndexOf(t, '=') == 0 && t[..0] == ""; }
    NothingTrimmed();
    if raw != "" && raw[0] == '#' { assert raw[..0] == ""; }
  }

  lemma NothingTrimmed()
    ensures Trim("") == ""
  {
  }
}
