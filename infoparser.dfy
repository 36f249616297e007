/**
 * The parser for the text of the Redis `INFO` reply (`parseKeyValue` in
 * redis.go): the text is cut into lines at "\r\n", section headers (lines
 * that start with '#') are skipped, every other line that splits on ':'
 * into exactly two parts sets `key -> value`, and a later line overwrites
 * an earlier one with the same key.
 */
module InfoParser {
  import opened Wrappers
  import opened GoStrings

  const LineBreak: string := "\r\n"
  const Colon: string := ":"

  /** One `key:value` line of the reply. */
  datatype Pair = Pair(key: string, value: string)

  /** What one line contributes: nothing, or the pair it sets. */
  function Entry(line: string): Option<Pair> {
    if HasPrefix(line, "#") then None
    else
      var pair := Split(line, Colon);
      if |pair| != 2 then None else Some(Pair(pair[0], pair[1]))
  }

  /** The map after one more line has been processed. */
  function Apply(m: map<string, string>, line: string): map<string, string> {
    match Entry(line)
    case None => m
    case Some(p) => m[p.key := p.value]
  }

  /** The map built from a sequence of lines, processed first to last. */
  function ParseLines(lines: seq<string>): map<string, string>
    decreases |lines|
  {
    if lines == [] then map[]
    else Apply(ParseLines(lines[..|lines| - 1]), lines[|lines| - 1])
  }

  /** The lines of a reply, as `strings.Split(str, "\r\n")` gives them. */
  function Lines(str: string): seq<string> {
    Split(str, LineBreak)
  }

  /** The map that `parseKeyValue` returns for `str`. */
  function Parse(str: string): map<string, string> {
    ParseLines(Lines(str))
  }

  /** Line `line` is kept and sets key `k`. */
  predicate SetsKey(line: string, k: string) {
    Entry(line).Some? && Entry(line).value.key == k
  }

  /**
   * Independent description of the result: its keys are exactly the keys
   * of the kept lines, and each key holds the value of the LAST kept line
   * that sets it.
   */
  ghost predicate LastWriteWins(lines: seq<string>, m: map<string, string>) {
    && (forall i :: 0 <= i < |lines| && Entry(lines[i]).Some? ==> Entry(lines[i]).value.key in m)
    && (forall k :: k in m ==>
          exists i :: 0 <= i < |lines| && Entry(lines[i]) == Some(Pair(k, m[k]))
                      && forall j :: i < j < |lines| ==> !SetsKey(lines[j], k))
  }

  /**
   * `parseKeyValue`: the loop over the lines, writing each kept pair into
   * the map in place.
   */
  method ParseKeyValue(str: string) returns (res: map<string, string>)
    ensures res == Parse(str)
    ensures LastWriteWins(Lines(str), res)
  {
    res := map[];
    var lines := Split(str, LineBreak);
    for i := 0 to |lines|
      invariant res == ParseLines(lines[..i])
    {
      var line := lines[i];
      assert lines[..i + 1][..i] == lines[..i];
      if HasPrefix(line, "#") {
        continue;
      }
      var pair := Split(line, Colon);
      if |pair| != 2 {
        continue;
      }
      res := res[pair[0] := pair[1]];
    }
    assert lines[..|lines|] == lines;
    ParseLinesLastWriteWins(lines);
  }

  // ---------------------------------------------------------------------
  // Which lines are kept

  /**
   * A line is kept exactly when it is not a section header and holds
   * exactly one ':'.
   */
  lemma EntryKept(line: string)
    ensures Entry(line).Some? <==> !HasPrefix(line, "#") && Count(line, ':') == 1
  {
    SplitCharCount(line, ':');
  }

  /**
   * A kept line is its key, one ':' and its value, with nothing trimmed:
   * neither part contains a ':'.
   */
  lemma EntryShape(line: string, k: string, v: string)
    requires Entry(line) == Some(Pair(k, v))
    ensures line == k + ":" + v
    ensures ':' !in k && ':' !in v
    ensures !HasPrefix(k, "#")
  {
    var pair := Split(line, Colon);
    SplitJoin(line, Colon);
    assert pair == [k, v];
    assert Join(pair, Colon) == k + Colon + v;
    ContainsChar(k, ':');
    ContainsChar(v, ':');
  }

  /** Conversely, `k:v` is kept as the pair (k, v) whenever the shape allows. */
  lemma EntryOf(k: string, v: string)
    requires ':' !in k && ':' !in v
    requires !HasPrefix(k, "#")
    ensures Entry(k + ":" + v) == Some(Pair(k, v))
  {
    var line := k + ":" + v;
    assert !HasPrefix(line, "#") by {
      if |k| > 0 {
        assert line[..1] == k[..1];
      } else {
        assert line[..1] == Colon;
      }
    }
    ContainsChar(k, ':');
    ContainsChar(v, ':');
    assert Join([k, v], Colon) == line;
    SplitUnique(line, Colon, [k, v]);
  }

  // ---------------------------------------------------------------------
  // The map as a whole

  lemma ApplyUnion(m: map<string, string>, n: map<string, string>, line: string)
    ensures Apply(m + n, line) == m + Apply(n, line)
  {
  }

  /** Parsing a concatenation of line sequences: the later lines override. */
  lemma {:induction false} ParseLinesAppend(xs: seq<string>, ys: seq<string>)
    ensures ParseLines(xs + ys) == ParseLines(xs) + ParseLines(ys)
    decreases |ys|
  {
    if ys == [] {
      assert xs + ys == xs;
    } else {
      var init, last := ys[..|ys| - 1], ys[|ys| - 1];
      assert (xs + ys)[..|xs + ys| - 1] == xs + init;
      ParseLinesAppend(xs, init);
      ApplyUnion(ParseLines(xs), ParseLines(init), last);
    }
  }

  /** A line that is not kept can be removed without changing the result. */
  lemma DroppedLineNeutral(xs: seq<string>, line: string, ys: seq<string>)
    requires Entry(line).None?
    ensures ParseLines(xs + [line] + ys) == ParseLines(xs + ys)
  {
    ParseLinesAppend(xs + [line], ys);
    ParseLinesAppend(xs, ys);
    assert (xs + [line])[..|xs|] == xs;
  }

  /** A section header never adds an entry, even if it holds one ':'. */
  lemma HeaderLineNeutral(xs: seq<string>, line: string, ys: seq<string>)
    requires HasPrefix(line, "#")
    ensures ParseLines(xs + [line] + ys) == ParseLines(xs + ys)
  {
    DroppedLineNeutral(xs, line, ys);
  }

  /** A line with no ':' or with two or more never adds an entry. */
  lemma ColonCountNeutral(xs: seq<string>, line: string, ys: seq<string>)
    requires Count(line, ':') != 1
    ensures ParseLines(xs + [line] + ys) == ParseLines(xs + ys)
  {
    EntryKept(line);
    DroppedLineNeutral(xs, line, ys);
  }

  /** Every kept line leaves its key in the map. */
  lemma {:induction false} ParseLinesHasKeys(lines: seq<string>)
    ensures forall i :: 0 <= i < |lines| && Entry(lines[i]).Some? ==>
              Entry(lines[i]).value.key in ParseLines(lines)
    decreases |lines|
  {
    if lines != [] {
      var n := |lines| - 1;
      var init := lines[..n];
      ParseLinesHasKeys(init);
      forall i | 0 <= i < n && Entry(lines[i]).Some?
        ensures Entry(lines[i]).value.key in ParseLines(lines)
      {
        assert lines[i] == init[i];
      }
    }
  }

  /** What one more line does to key `k`. */
  lemma ApplyKey(m: map<string, string>, line: string, k: string)
    ensures SetsKey(line, k) ==> k in Apply(m, line) && Entry(line) == Some(Pair(k, Apply(m, line)[k]))
    ensures !SetsKey(line, k) ==> (k in Apply(m, line) <==> k in m)
    ensures !SetsKey(line, k) && k in m ==> Apply(m, line)[k] == m[k]
  {
  }

  /** The index of the last kept line that sets key `k` of the map. */
  lemma {:induction false} LastSetter(lines: seq<string>, k: string) returns (i: nat)
    requires k in ParseLines(lines)
    ensures i < |lines| && Entry(lines[i]) == Some(Pair(k, ParseLines(lines)[k]))
    ensures forall j :: i < j < |lines| ==> !SetsKey(lines[j], k)
    decreases |lines|
  {
    var n := |lines| - 1;
    var init, last := lines[..n], lines[n];
    var m0 := ParseLines(init);
    assert ParseLines(lines) == Apply(m0, last);
    ApplyKey(m0, last, k);
    if SetsKey(last, k) {
      i := n;
    } else {
      i := LastSetter(init, k);
      assert lines[i] == init[i];
      forall j | i < j < |lines|
        ensures !SetsKey(lines[j], k)
      {
        if j < n {
          assert lines[j] == init[j];
        }
      }
    }
  }

  /** Every key of the map comes from the last kept line that sets it. */
  lemma ParseLinesLastValue(lines: seq<string>, k: string)
    requires k in ParseLines(lines)
    ensures exists i :: 0 <= i < |lines| && Entry(lines[i]) == Some(Pair(k, ParseLines(lines)[k]))
                        && forall j :: i < j < |lines| ==> !SetsKey(lines[j], k)
  {
    var i := LastSetter(lines, k);
  }

  /** `ParseLines` meets the last-write-wins description. */
  lemma ParseLinesLastWriteWins(lines: seq<string>)
    ensures LastWriteWins(lines, ParseLines(lines))
  {
    ParseLinesHasKeys(lines);
    forall k | k in ParseLines(lines)
      ensures exists i :: 0 <= i < |lines| && Entry(lines[i]) == Some(Pair(k, ParseLines(lines)[k]))
                          && forall j :: i < j < |lines| ==> !SetsKey(lines[j], k)
    {
      ParseLinesLastValue(lines, k);
    }
  }

  /** Two lines that each are the last to set `k` are the same line. */
  lemma LastSetterUnique(lines: seq<string>, k: string, i: nat, i': nat)
    requires i < |lines| && i' < |lines|
    requires SetsKey(lines[i], k) && SetsKey(lines[i'], k)
    requires forall j :: i < j < |lines| ==> !SetsKey(lines[j], k)
    requires forall j :: i' < j < |lines| ==> !SetsKey(lines[j], k)
    ensures i == i'
  {
  }

  /** A key of a map meeting the description holds the value `ParseLines` gives it. */
  lemma LastWriteWinsAgrees(lines: seq<string>, m: map<string, string>, k: string)
    requires LastWriteWins(lines, m) && k in m
    ensures k in ParseLines(lines) && ParseLines(lines)[k] == m[k]
  {
    var p := ParseLines(lines);
    var i :| 0 <= i < |lines| && Entry(lines[i]) == Some(Pair(k, m[k]))
             && forall j :: i < j < |lines| ==> !SetsKey(lines[j], k);
    ParseLinesHasKeys(lines);
    assert k in p;
    var i' := LastSetter(lines, k);
    LastSetterUnique(lines, k, i, i');
  }

  /** Every key `ParseLines` produces is in a map meeting the description. */
  lemma LastWriteWinsCovers(lines: seq<string>, m: map<string, string>, k: string)
    requires LastWriteWins(lines, m) && k in ParseLines(lines)
    ensures k in m
  {
    var i := LastSetter(lines, k);
    assert Entry(lines[i]).Some?;
  }

  /** The last-write-wins description determines the map completely. */
  lemma LastWriteWinsUnique(lines: seq<string>, m: map<string, string>)
    requires LastWriteWins(lines, m)
    ensures m == ParseLines(lines)
  {
    var p := ParseLines(lines);
    forall k
      ensures (k in m <==> k in p) && (k in m ==> m[k] == p[k])
    {
      if k in m {
        LastWriteWinsAgrees(lines, m, k);
      }
      if k in p {
        LastWriteWinsCovers(lines, m, k);
      }
    }
  }

  /**
   * Every key of the parsed reply is the text before the only ':' of one of
   * its lines, and its value is the text after it, untrimmed.
   */
  lemma ParsedKeyOrigin(str: string, k: string)
    requires k in Parse(str)
    ensures exists i :: 0 <= i < |Lines(str)| && !HasPrefix(Lines(str)[i], "#")
                        && Lines(str)[i] == k + ":" + Parse(str)[k]
                        && ':' !in k && ':' !in Parse(str)[k]
  {
    var lines, v := Lines(str), Parse(str)[k];
    var i := LastSetter(lines, k);
    EntryShape(lines[i], k, v);
  }

  // ---------------------------------------------------------------------
  // The text of the reply

  lemma LineBreakBorderFree()
    ensures BorderFree(LineBreak)
  {
    assert LineBreak[1..] == "\n";
    assert LineBreak[..1] == "\r";
  }

  /** The empty reply gives the empty map. */
  lemma EmptyReply()
    ensures Parse("") == map[]
  {
    SplitWithoutSeparator("", LineBreak);
    EntryKept("");
  }

  /** A reply in which no line is kept gives the empty map. */
  lemma NothingKept(str: string)
    requires forall i :: 0 <= i < |Lines(str)| ==>
               HasPrefix(Lines(str)[i], "#") || Count(Lines(str)[i], ':') != 1
    ensures Parse(str) == map[]
  {
    var lines := Lines(str);
    var m := ParseLines(lines);
    if m != map[] {
      var k :| k in m;
      ParseLinesLastValue(lines, k);
      var i :| 0 <= i < |lines| && Entry(lines[i]) == Some(Pair(k, m[k]));
      EntryKept(lines[i]);
      assert false;
    }
  }

  /** Text on one side of a "\r\n" is parsed independently; the right side wins. */
  lemma ParseAround(a: string, b: string)
    ensures Parse(a + LineBreak + b) == Parse(a) + Parse(b)
  {
    LineBreakBorderFree();
    SplitAround(a, b, LineBreak);
    ParseLinesAppend(Lines(a), Lines(b));
  }

  /** A reply without "\r\n" is a single line, and is parsed as that line alone. */
  lemma ParseOneLine(line: string)
    requires !Contains(line, LineBreak)
    ensures Parse(line) == Apply(map[], line)
  {
    SplitWithoutSeparator(line, LineBreak);
    assert Lines(line) == [line];
    assert [line][..0] == [];
    assert ParseLines([line]) == Apply(ParseLines([]), line);
  }

  /** A final kept line overrides whatever the reply said about its key before. */
  lemma LastLineWins(a: string, line: string, k: string, v: string)
    requires !Contains(line, LineBreak) && Entry(line) == Some(Pair(k, v))
    ensures Parse(a + LineBreak + line) == Parse(a)[k := v]
  {
    ParseAround(a, line);
    ParseOneLine(line);
    assert Parse(line) == map[k := v];
  }

  /** The same, for a final line written out as `k:v`. */
  lemma LastLineOverrides(a: string, k: string, v: string)
    requires ':' !in k && ':' !in v && !HasPrefix(k, "#")
    requires !Contains(k, LineBreak) && !Contains(v, LineBreak)
    ensures Parse(a + LineBreak + k + ":" + v) == Parse(a)[k := v]
  {
    var line := k + ":" + v;
    assert a + LineBreak + k + ":" + v == a + LineBreak + line;
    EntryOf(k, v);
    NoLineBreakAcrossColon(k, v);
    LastLineWins(a, line, k, v);
  }

  /** The parse of a single `k:v` line. */
  lemma ParseSingle(k: string, v: string)
    requires ':' !in k && ':' !in v && !HasPrefix(k, "#")
    requires !Contains(k, LineBreak) && !Contains(v, LineBreak)
    ensures Parse(k + ":" + v) == map[k := v]
  {
    NoLineBreakAcrossColon(k, v);
    ParseOneLine(k + ":" + v);
    EntryOf(k, v);
  }

  /** A reply ending in "\r\n" parses as the reply without it. */
  lemma TrailingLineBreak(a: string)
    ensures Parse(a + LineBreak) == Parse(a)
  {
    assert a + LineBreak == a + LineBreak + "";
    ParseAround(a, "");
    EmptyReply();
  }

  /** Keys and values keep their surrounding blanks. */
  lemma NoTrimming()
    ensures Parse("key : value") == map["key " := " value"]
  {
    NotHeader("key ");
    WithoutCarriageReturn("key ");
    WithoutCarriageReturn(" value");
    ParseSingle("key ", " value");
    assert "key " + ":" + " value" == "key : value";
  }

  // ---------------------------------------------------------------------
  // Small facts about literal keys and values

  /** Text whose first character is not '#' is not a section header. */
  lemma NotHeader(k: string)
    requires |k| > 0 && k[0] != '#'
    ensures !HasPrefix(k, "#")
  {
    assert k[..1][0] == k[0];
  }

  /** Text without '\r' has no line break in it. */
  lemma WithoutCarriageReturn(s: string)
    requires '\r' !in s
    ensures !Contains(s, LineBreak)
  {
    forall i: nat | i + 2 <= |s|
      ensures !OccursAt(s, LineBreak, i)
    {
      assert s[i] != '\r';
      assert s[i..i + 2][0] == s[i];
    }
  }

  /** A ':' between two texts cannot be part of a line break. */
  lemma NoLineBreakAcrossColon(k: string, v: string)
    requires !Contains(k, LineBreak) && !Contains(v, LineBreak)
    ensures !Contains(k + ":" + v, LineBreak)
  {
    var line := k + ":" + v;
    forall i: nat | OccursAt(line, LineBreak, i)
      ensures false
    {
      assert line[i] == '\r' && line[i + 1] == '\n' by {
        assert line[i..i + 2] == LineBreak;
      }
      if i + 2 <= |k| {
        assert k[i..i + 2] == line[i..i + 2];
        assert OccursAt(k, LineBreak, i);
      } else if i > |k| {
        var j: nat := i - |k| - 1;
        assert v[j..j + 2] == line[i..i + 2];
        assert OccursAt(v, LineBreak, j);
      }
    }
  }
}
