/**
  The Java client's persisted local index (`index.txt`): one line per file,
  `filename,version,h1 h2 ...`, with an empty hash list written as the single
  token `0`. Reading follows Java's `String.split` and `Integer.parseInt`;
  a line that does not have three fields or whose version is not a 32-bit
  integer throws, and the handler around the whole read loop keeps only the
  entries read before that line.
 */
module IndexFile {
  import opened SurfTypes

  // ---------------------------------------------------------------------------
  // Splitting text, as java.lang.String.split does it for a one-character separator

  /** Every piece of `s` between occurrences of `sep`, empty pieces included. */
  function SplitAll(s: string, sep: char): (r: seq<string>)
    ensures |r| >= 1
  {
    if s == [] then [""]
    else
      var rest := SplitAll(s[1..], sep);
      if s[0] == sep then [""] + rest else [[s[0]] + rest[0]] + rest[1..]
  }

  lemma {:induction false} SplitAllNoSep(s: string, sep: char)
    requires sep !in s
    ensures SplitAll(s, sep) == [s]
  {
    if s != [] {
      SplitAllNoSep(s[1..], sep);
      assert [s[0]] + s[1..] == s;
    }
  }

  /** A piece without the separator, then the separator, splits off as one piece. */
  lemma {:induction false} SplitAllCons(a: string, sep: char, b: string)
    requires sep !in a
    ensures SplitAll(a + [sep] + b, sep) == [a] + SplitAll(b, sep)
  {
    if a == [] {
      assert a + [sep] + b == [sep] + b;
      assert ([sep] + b)[1..] == b;
    } else {
      var s := a + [sep] + b;
      assert s[1..] == a[1..] + [sep] + b;
      SplitAllCons(a[1..], sep, b);
      assert [a[0]] + a[1..] == a;
    }
  }

  function DropTrailingEmpty(p: seq<string>): seq<string>
  {
    if p == [] then []
    else if p[|p| - 1] == "" then DropTrailingEmpty(p[..|p| - 1])
    else p
  }

  /** `s.split(sep)`: the whole string when the separator does not occur, otherwise
      all pieces with the trailing empty ones removed. */
  function JavaSplit(s: string, sep: char): seq<string>
  {
    if sep !in s then [s] else DropTrailingEmpty(SplitAll(s, sep))
  }

  // ---------------------------------------------------------------------------
  // Decimal integers, as Integer.parseInt reads them and Integer.toString writes them

  predicate IsDigit(c: char)
  {
    '0' <= c <= '9'
  }

  predicate AllDigits(s: string)
  {
    forall i :: 0 <= i < |s| ==> IsDigit(s[i])
  }

  function DigitsValue(s: string): nat
    requires AllDigits(s)
  {
    if s == [] then 0
    else DigitsValue(s[..|s| - 1]) * 10 + (s[|s| - 1] as int - '0' as int)
  }

  /** Integer.parseInt: an optional sign, then one or more digits, within 32 bits. */
  function ParseInt(s: string): Option<Int32>
  {
    var signed := |s| > 0 && (s[0] == '-' || s[0] == '+');
    var digits := if signed then s[1..] else s;
    if digits == [] || !AllDigits(digits) then None
    else
      var v: int := if |s| > 0 && s[0] == '-' then 0 - DigitsValue(digits) else DigitsValue(digits);
      if MinInt32 <= v <= MaxInt32 then Some(v) else None
  }

  /** The decimal digits of n, without leading zeros. */
  function NatToDigits(n: nat): (r: string)
    ensures r != [] && AllDigits(r)
  {
    if n < 10 then [('0' as int + n) as char]
    else NatToDigits(n / 10) + [('0' as int + n % 10) as char]
  }

  /** Integer.toString. */
  function IntToString(v: int): string
  {
    if v < 0 then "-" + NatToDigits(-v) else NatToDigits(v)
  }

  lemma {:induction false} DigitsRoundTrip(n: nat)
    ensures DigitsValue(NatToDigits(n)) == n
  {
    if n >= 10 {
      DigitsRoundTrip(n / 10);
      var d := NatToDigits(n);
      assert d[..|d| - 1] == NatToDigits(n / 10);
    }
  }

  /** Every Java int is read back as written. */
  lemma ParseIntToString(v: Int32)
    ensures ParseInt(IntToString(v)) == Some(v)
    ensures ',' !in IntToString(v) && '\n' !in IntToString(v)
  {
    var n: nat := if v < 0 then -(v as int) else v;
    var d := NatToDigits(n);
    DigitsRoundTrip(n);
    assert forall c :: c in d ==> IsDigit(c);
    if v < 0 {
      assert IntToString(v)[1..] == d;
    } else {
      assert IsDigit(IntToString(v)[0]);
    }
  }

  // ---------------------------------------------------------------------------
  // Reading the index

  /** The hash tokens of a line's third field with every literal "0" dropped. */
  function DropZeros(tokens: seq<string>): seq<string>
  {
    if tokens == [] then []
    else DropZeros(tokens[..|tokens| - 1]) + (if tokens[|tokens| - 1] == "0" then [] else [tokens[|tokens| - 1]])
  }

  /** One line of the index file: its file name and record, or None where the Java
      code throws (fewer than three fields, or a version that is not an int). */
  function ParseLine(line: string): Option<(string, FileInfo)>
  {
    var strs := JavaSplit(line, ',');
    if |strs| < 3 then None
    else match ParseInt(strs[1])
      case None => None
      case Some(version) => Some((strs[0], FileInfo(version, DropZeros(JavaSplit(strs[2], ' ')))))
  }

  /** The lines BufferedReader.readLine hands out, on '\n'-terminated text: no line for
      the empty text, and none after a final '\n'. */
  function LinesOf(text: string): seq<string>
  {
    if text == [] then []
    else
      var pieces := SplitAll(text, '\n');
      if pieces[|pieces| - 1] == "" then pieces[..|pieces| - 1] else pieces
  }

  /** Entering the lines one by one into `acc`; a later line for the same name wins,
      and the first line that throws ends the reading. */
  function ParseLines(lines: seq<string>, acc: Index): Index
  {
    if lines == [] then acc
    else match ParseLine(lines[0])
      case None => acc
      case Some(entry) => ParseLines(lines[1..], acc[entry.0 := entry.1])
  }

  /** getIndexMetadata: the map read from the index file's text. */
  function ParseIndex(text: string): Index
  {
    ParseLines(LinesOf(text), map[])
  }

  /** The inner loop of getIndexMetadata: keep every token that is not "0". */
  method CollectHashes(tokens: seq<string>) returns (hashlist: seq<string>)
    ensures hashlist == DropZeros(tokens)
  {
    hashlist := [];
    for j := 0 to |tokens|
      invariant hashlist == DropZeros(tokens[..j])
    {
      assert tokens[..j + 1][..j] == tokens[..j];
      if tokens[j] != "0" {
        hashlist := hashlist + [tokens[j]];
      }
    }
    assert tokens[..|tokens|] == tokens;
  }

  /** One step of ParseLines on a suffix of the lines. */
  lemma ParseLinesStep(lines: seq<string>, i: nat, acc: Index)
    requires i < |lines|
    ensures ParseLines(lines[i..], acc)
         == match ParseLine(lines[i])
              case None => acc
              case Some(entry) => ParseLines(lines[i + 1..], acc[entry.0 := entry.1])
  {
    assert lines[i..][1..] == lines[i + 1..];
  }

  /** The read loop of getIndexMetadata over the file's lines. */
  method GetIndexMetadata(text: string) returns (index: Index)
    ensures index == ParseIndex(text)
  {
    var lines := LinesOf(text);
    index := map[];
    var i := 0;
    while i < |lines|
      invariant 0 <= i <= |lines|
      invariant ParseLines(lines[i..], index) == ParseIndex(text)
    {
      ParseLinesStep(lines, i, index);
      var strs := JavaSplit(lines[i], ',');
      if |strs| < 3 {
        break;
      }
      var filename := strs[0];
      var version := ParseInt(strs[1]);
      if version.None? {
        break;
      }
      var hashlist := CollectHashes(JavaSplit(strs[2], ' '));
      index := index[filename := FileInfo(version.value, hashlist)];
      i := i + 1;
    }
  }

  // ---------------------------------------------------------------------------
  // Writing the index

  /** Hashes separated by single spaces. */
  function Join(hs: seq<string>): string
    requires hs != []
  {
    if |hs| == 1 then hs[0] else hs[0] + " " + Join(hs[1..])
  }

  /** The third field: the joined hashes, or "0" for an empty list. */
  function HashField(hs: seq<string>): string
  {
    if hs == [] then "0" else Join(hs)
  }

  /** The line writeIndex writes for one entry (without its '\n'). */
  function Line(filename: string, info: FileInfo): string
  {
    filename + "," + IntToString(info.version) + "," + HashField(info.hashlist)
  }

  /** A name with its record: one line of the file. */
  type Entry = (string, FileInfo)

  /** The entries of `index` in the order `order` lists their names. */
  function Entries(index: Index, order: seq<string>): (es: seq<Entry>)
    requires forall i :: 0 <= i < |order| ==> order[i] in index
    ensures |es| == |order|
    ensures forall i :: 0 <= i < |order| ==> es[i] == (order[i], index[order[i]])
  {
    seq(|order|, i requires 0 <= i < |order| => (order[i], index[order[i]]))
  }

  /** The text of '\n'-terminated lines, one per entry, in order. */
  function Render(es: seq<Entry>): string
  {
    if es == [] then "" else Line(es[0].0, es[0].1) + "\n" + Render(es[1..])
  }

  lemma RenderStep(es: seq<Entry>, i: nat)
    requires i < |es|
    ensures Render(es[i..]) == Line(es[i].0, es[i].1) + "\n" + Render(es[i + 1..])
  {
    assert es[i..][1..] == es[i + 1..];
  }

  /** What writeIndex writes: the index's lines in the hash table's iteration order. */
  function Serialize(index: Index, order: seq<string>): string
    requires forall i :: 0 <= i < |order| ==> order[i] in index
  {
    Render(Entries(index, order))
  }

  /** Every hash followed by one space, as the inner loop of writeIndex appends them. */
  function Spaced(hs: seq<string>): string
  {
    if hs == [] then "" else hs[0] + " " + Spaced(hs[1..])
  }

  lemma {:induction false} SpacedIsJoinPlusSpace(hs: seq<string>)
    requires hs != []
    ensures Spaced(hs) == Join(hs) + " "
  {
    if |hs| > 1 {
      SpacedIsJoinPlusSpace(hs[1..]);
    }
  }

  /** writeIndex's line construction: name, version and ',' separators; "0 " for an empty
      list; each hash followed by a space; then the last character (a space) cut off. */
  method FormatLine(filename: string, info: FileInfo) returns (line: string)
    ensures line == Line(filename, info)
  {
    line := filename + "," + IntToString(info.version) + ",";
    ghost var head := line;
    if info.hashlist == [] {
      line := line + "0 ";
    }
    ghost var start := line;
    for i := 0 to |info.hashlist|
      invariant line + Spaced(info.hashlist[i..]) == start + Spaced(info.hashlist)
    {
      assert info.hashlist[i..][1..] == info.hashlist[i + 1..];
      line := line + info.hashlist[i] + " ";
    }
    assert info.hashlist[|info.hashlist|..] == [];
    assert line == start + Spaced(info.hashlist);
    if info.hashlist != [] {
      SpacedIsJoinPlusSpace(info.hashlist);
      assert line == head + Join(info.hashlist) + " ";
    } else {
      assert line == head + "0 ";
    }
    line := line[..|line| - 1];
  }

  /** Appending entry i's line to a prefix of the text that leaves the entries from i
      onwards to render leaves those from i + 1 onwards. */
  lemma RenderPrefixStep(es: seq<Entry>, i: nat, text: string, total: string)
    requires i < |es|
    requires text + Render(es[i..]) == total
    ensures (text + (Line(es[i].0, es[i].1) + "\n")) + Render(es[i + 1..]) == total
  {
    RenderStep(es, i);
    var line := Line(es[i].0, es[i].1);
    var rest := Render(es[i + 1..]);
    assert (text + (line + "\n")) + rest == text + ((line + "\n") + rest);
  }

  /** writeIndex: the lines of the entries in the hash table's iteration order `order`. */
  method WriteIndex(index: Index, order: seq<string>) returns (text: string)
    requires IsEnumeration(order, index.Keys)
    ensures text == Serialize(index, order)
  {
    EnumerationMembers(order, index.Keys);
    ghost var es := Entries(index, order);
    text := "";
    assert es[0..] == es;
    for i := 0 to |order|
      invariant text + Render(es[i..]) == Render(es)
    {
      var line := FormatLine(order[i], index[order[i]]);
      assert line == Line(es[i].0, es[i].1);
      RenderPrefixStep(es, i, text, Render(es));
      text := text + (line + "\n");
    }
    assert es[|order|..] == [];
  }

  // ---------------------------------------------------------------------------
  // Round trip

  /** A file name the format can carry: no field separator, no line break ('\r' ends a
      line for readLine too). */
  predicate NameFits(name: string)
  {
    ',' !in name && '\n' !in name && '\r' !in name
  }

  /** A hash the format can carry: a non-empty token other than "0" with no separator. */
  predicate HashFits(h: string)
  {
    h != "" && h != "0" && ' ' !in h && ',' !in h && '\n' !in h && '\r' !in h
  }

  predicate HashesFit(hs: seq<string>)
  {
    forall j :: 0 <= j < |hs| ==> HashFits(hs[j])
  }

  predicate EntryFits(e: Entry)
  {
    NameFits(e.0) && HashesFit(e.1.hashlist)
  }

  /** An index whose names and hashes all fit the format. */
  ghost predicate IndexFits(index: Index)
  {
    forall f :: f in index ==> EntryFits((f, index[f]))
  }

  lemma {:induction false} JoinSplits(hs: seq<string>)
    requires hs != [] && HashesFit(hs)
    ensures SplitAll(Join(hs), ' ') == hs
    ensures ',' !in Join(hs) && '\n' !in Join(hs)
    ensures |hs| > 1 ==> ' ' in Join(hs)
  {
    assert HashFits(hs[0]);
    if |hs| == 1 {
      SplitAllNoSep(hs[0], ' ');
    } else {
      assert HashesFit(hs[1..]) by {
        forall j | 0 <= j < |hs| - 1 ensures HashFits(hs[1..][j]) {
          assert hs[1..][j] == hs[j + 1];
        }
      }
      JoinSplits(hs[1..]);
      SplitAllCons(hs[0], ' ', Join(hs[1..]));
      assert hs == [hs[0]] + hs[1..];
      assert Join(hs)[|hs[0]|] == ' ';
    }
  }

  lemma {:induction false} DropZerosKeeps(hs: seq<string>)
    requires HashesFit(hs)
    ensures DropZeros(hs) == hs
  {
    if hs != [] {
      assert HashFits(hs[|hs| - 1]);
      DropZerosKeeps(hs[..|hs| - 1]);
      assert hs[..|hs| - 1] + [hs[|hs| - 1]] == hs;
    }
  }

  lemma ZeroFieldIsEmpty()
    ensures DropZeros(JavaSplit("0", ' ')) == []
  {
    assert ' ' !in "0";
    assert JavaSplit("0", ' ') == ["0"];
    assert ["0"][..0] == [];
  }

  lemma JavaSplitJoin(hs: seq<string>)
    requires hs != [] && HashesFit(hs)
    ensures JavaSplit(Join(hs), ' ') == hs
  {
    JoinSplits(hs);
    if |hs| == 1 {
      assert HashFits(hs[0]);
      assert Join(hs) == hs[0];
    } else {
      assert HashFits(hs[|hs| - 1]);
    }
  }

  lemma JoinRoundTrip(hs: seq<string>)
    requires hs != [] && HashesFit(hs)
    ensures DropZeros(JavaSplit(Join(hs), ' ')) == hs
  {
    JavaSplitJoin(hs);
    DropZerosKeeps(hs);
  }

  /** The third field is read back as the hash list it was written from. */
  lemma HashFieldRoundTrip(hs: seq<string>)
    requires HashesFit(hs)
    ensures ',' !in HashField(hs) && '\n' !in HashField(hs)
    ensures DropZeros(JavaSplit(HashField(hs), ' ')) == hs
  {
    if hs == [] {
      ZeroFieldIsEmpty();
    } else {
      JoinSplits(hs);
      JoinRoundTrip(hs);
    }
  }

  /** Three separator-free fields joined by the separator split back into those fields. */
  lemma SplitThree(x: string, y: string, z: string, sep: char)
    requires sep !in x && sep !in y && sep !in z
    ensures SplitAll(x + [sep] + y + [sep] + z, sep) == [x, y, z]
  {
    assert x + [sep] + y + [sep] + z == x + [sep] + (y + [sep] + z);
    SplitAllCons(x, sep, y + [sep] + z);
    SplitAllCons(y, sep, z);
    SplitAllNoSep(z, sep);
  }

  /** One written line is read back as the entry it was written from. */
  lemma LineRoundTrip(e: Entry)
    requires EntryFits(e)
    ensures '\n' !in Line(e.0, e.1)
    ensures ParseLine(Line(e.0, e.1)) == Some(e)
  {
    var v := IntToString(e.1.version);
    var hf := HashField(e.1.hashlist);
    HashFieldRoundTrip(e.1.hashlist);
    ParseIntToString(e.1.version);
    var line := Line(e.0, e.1);
    assert line == e.0 + [','] + v + [','] + hf;
    SplitThree(e.0, v, hf, ',');
    assert line[|e.0|] == ',';
    assert JavaSplit(line, ',') == [e.0, v, hf];
  }

  /** The lines of the entries, without their terminators. */
  function RenderLines(es: seq<Entry>): seq<string>
  {
    if es == [] then [] else [Line(es[0].0, es[0].1)] + RenderLines(es[1..])
  }

  predicate AllFit(es: seq<Entry>)
  {
    forall i :: 0 <= i < |es| ==> EntryFits(es[i])
  }

  /** The rendered text splits back into the rendered lines (and an empty tail). */
  lemma {:induction false} RenderSplits(es: seq<Entry>)
    requires AllFit(es)
    ensures SplitAll(Render(es), '\n') == RenderLines(es) + [""]
  {
    if es != [] {
      LineRoundTrip(es[0]);
      assert AllFit(es[1..]) by {
        forall i | 0 <= i < |es| - 1 ensures EntryFits(es[1..][i]) {
          assert es[1..][i] == es[i + 1];
        }
      }
      RenderSplits(es[1..]);
      SplitAllCons(Line(es[0].0, es[0].1), '\n', Render(es[1..]));
    }
  }

  /** Entering the entries one by one into `acc`. */
  function Enter(es: seq<Entry>, acc: Index): Index
  {
    if es == [] then acc else Enter(es[1..], acc[es[0].0 := es[0].1])
  }

  /** Reading the rendered lines enters the entries they were rendered from. */
  lemma {:induction false} ParseRenderLines(es: seq<Entry>, acc: Index)
    requires AllFit(es)
    ensures ParseLines(RenderLines(es), acc) == Enter(es, acc)
  {
    if es != [] {
      LineRoundTrip(es[0]);
      assert AllFit(es[1..]) by {
        forall i | 0 <= i < |es| - 1 ensures EntryFits(es[1..][i]) {
          assert es[1..][i] == es[i + 1];
        }
      }
      ParseRenderLines(es[1..], acc[es[0].0 := es[0].1]);
    }
  }

  /** Entering an index's entries in any order: the listed names get the index's records,
      every other name keeps the accumulator's. */
  lemma {:induction false} EnterEntries(index: Index, order: seq<string>, acc: Index)
    requires forall i :: 0 <= i < |order| ==> order[i] in index
    ensures forall k :: k in Enter(Entries(index, order), acc) <==> k in acc || k in order
    ensures forall k :: k in Enter(Entries(index, order), acc)
              ==> Enter(Entries(index, order), acc)[k] == if k in order then index[k] else acc[k]
  {
    if order != [] {
      var es := Entries(index, order);
      assert es[1..] == Entries(index, order[1..]);
      EnterEntries(index, order[1..], acc[order[0] := index[order[0]]]);
      assert forall k :: k in order <==> k == order[0] || k in order[1..] by {
        assert order == [order[0]] + order[1..];
      }
    }
  }

  /** The lines readLine hands out for the rendered text are the rendered lines. */
  lemma LinesOfRender(es: seq<Entry>)
    requires AllFit(es)
    ensures LinesOf(Render(es)) == RenderLines(es)
  {
    RenderSplits(es);
    if es != [] {
      var pieces := SplitAll(Render(es), '\n');
      assert pieces[..|pieces| - 1] == RenderLines(es);
    }
  }

  /** Entering an index's entries, in an order that lists every name once, rebuilds it. */
  lemma EnterIndex(index: Index, order: seq<string>)
    requires IsEnumeration(order, index.Keys)
    requires forall i :: 0 <= i < |order| ==> order[i] in index
    ensures Enter(Entries(index, order), map[]) == index
  {
    EnterEntries(index, order, map[]);
    var back := Enter(Entries(index, order), map[]);
    assert back.Keys == index.Keys;
  }

  /** Reading back what writeIndex wrote gives the same index, whatever the iteration
      order, as long as names and hashes fit the format. */
  lemma ParseSerialize(index: Index, order: seq<string>)
    requires IsEnumeration(order, index.Keys)
    requires IndexFits(index)
    ensures ParseIndex(Serialize(index, order)) == index
  {
    EnumerationMembers(order, index.Keys);
    var es := Entries(index, order);
    assert AllFit(es) by {
      forall i | 0 <= i < |es| ensures EntryFits(es[i]) {
        assert EntryFits((order[i], index[order[i]]));
      }
    }
    LinesOfRender(es);
    ParseRenderLines(es, map[]);
    EnterIndex(index, order);
  }
}
