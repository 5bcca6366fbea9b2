/** parseLine and the reading loop of loadData: one line of the data file becomes the four
    fields of a CityNode. A line holding a double quote goes through a small scanner that drops
    the quotes and keeps the commas between them; a line without one, and a quoted line whose
    fields do not fit the scanner's four slots, goes to String.split(","). */
module Csv {

  import opened Wrappers
  import opened Cities

  // ------------------------------------------------------------------------------------------
  // Fields separated by commas

  /** The pieces of `line` between commas: every comma separates, empty pieces are kept. */
  function Pieces(line: string): (r: seq<string>)
    ensures |r| > 0
  {
    if |line| == 0 then [""]
    else
      var rest := Pieces(line[1..]);
      if line[0] == ',' then [""] + rest else [[line[0]] + rest[0]] + rest[1..]
  }

  /** Fields joined back together with a comma between neighbours. */
  function Join(fs: seq<string>): string {
    if |fs| == 0 then "" else if |fs| == 1 then fs[0] else fs[0] + "," + Join(fs[1..])
  }

  /** How many commas the string holds. */
  function Commas(line: string): nat {
    if |line| == 0 then 0 else (if line[0] == ',' then 1 else 0) + Commas(line[1..])
  }

  predicate NoComma(fs: seq<string>) {
    forall j :: 0 <= j < |fs| ==> ',' !in fs[j]
  }

  /** Gluing a character to the first field puts it in front of the joined line. */
  lemma JoinGlue(c: char, fs: seq<string>)
    requires |fs| > 0
    ensures Join([[c] + fs[0]] + fs[1..]) == [c] + Join(fs)
  {
    var p := [[c] + fs[0]] + fs[1..];
    assert p[0] == [c] + fs[0] && p[1..] == fs[1..];
    if |fs| > 1 {
      var tail := "," + Join(fs[1..]);
      assert Join(fs) == fs[0] + tail by {
        SeqAssoc(fs[0], ",", Join(fs[1..]));
      }
      assert Join(p) == ([c] + fs[0]) + tail by {
        SeqAssoc([c] + fs[0], ",", Join(fs[1..]));
      }
      SeqAssoc([c], fs[0], tail);
    }
  }

  /** An empty first field puts a comma in front of the rest. */
  lemma JoinEmptyFirst(fs: seq<string>)
    requires |fs| > 0
    ensures Join([""] + fs) == [','] + Join(fs)
  {
    assert ([""] + fs)[1..] == fs;
  }

  /** Splitting at every comma is undone by joining: there is one more piece than commas, and
      no piece holds a comma. */
  lemma {:induction false} PiecesJoin(line: string)
    ensures Join(Pieces(line)) == line
    ensures |Pieces(line)| == Commas(line) + 1
    ensures NoComma(Pieces(line))
  {
    if |line| > 0 {
      var rest := Pieces(line[1..]);
      PiecesJoin(line[1..]);
      assert line == [line[0]] + line[1..];
      if line[0] == ',' {
        assert Pieces(line) == [""] + rest;
        assert Pieces(line)[1..] == rest;
        JoinEmptyFirst(rest);
      } else {
        var p := Pieces(line);
        assert p[0] == [line[0]] + rest[0] && p[1..] == rest[1..];
        JoinGlue(line[0], rest);
        forall j | 0 <= j < |p| ensures ',' !in p[j] {
          if j == 0 {
            assert forall ch :: ch in p[0] ==> ch == line[0] || ch in rest[0];
          } else {
            assert p[j] == rest[j];
          }
        }
      }
    }
  }

  /** Joining comma-free fields and splitting the result gives the fields back. */
  lemma {:induction false} JoinPieces(fs: seq<string>)
    requires |fs| > 0 && NoComma(fs)
    ensures Pieces(Join(fs)) == fs
    decreases |fs|, |fs[0]|
  {
    if |fs[0]| > 0 {
      var c := fs[0][0];
      var fs' := [fs[0][1..]] + fs[1..];
      assert ',' !in fs[0][1..] by {
        forall ch | ch in fs[0][1..] ensures ch != ',' {
          assert ch in fs[0];
        }
      }
      assert NoComma(fs') by {
        forall j | 0 <= j < |fs'| ensures ',' !in fs'[j] {
          if j > 0 {
            assert fs'[j] == fs[j];
          }
        }
      }
      JoinPieces(fs');
      assert c != ',' by {
        assert c in fs[0];
      }
      var s := Join(fs);
      if |fs| == 1 {
        assert s == [c] + fs[0][1..];
      } else {
        assert fs'[1..] == fs[1..];
        assert s == [c] + (fs[0][1..] + "," + Join(fs[1..]));
      }
      assert s[1..] == Join(fs');
      assert fs[0] == [c] + fs[0][1..];
    } else if |fs| > 1 {
      assert NoComma(fs[1..]) by {
        forall j | 0 <= j < |fs| - 1 ensures ',' !in fs[1..][j] {
          assert fs[1..][j] == fs[j + 1];
        }
      }
      JoinPieces(fs[1..]);
      assert Join(fs) == [','] + Join(fs[1..]);
      assert Join(fs)[1..] == Join(fs[1..]);
    }
  }

  // ------------------------------------------------------------------------------------------
  // String.split(",")

  /** Trailing empty fields dropped, as split does when no limit is given. */
  function DropTrailingEmpty(fs: seq<string>): (r: seq<string>)
    ensures r <= fs
    ensures |r| > 0 ==> r[|r| - 1] != ""
    ensures forall j :: |r| <= j < |fs| ==> fs[j] == ""
  {
    if |fs| > 0 && fs[|fs| - 1] == "" then DropTrailingEmpty(fs[..|fs| - 1]) else fs
  }

  /** line.split(","): the whole line when it holds no comma, otherwise the pieces between
      commas without the empty ones at the end. */
  function Split(line: string): (r: seq<string>)
    ensures NoComma(r)
  {
    PiecesJoin(line);
    if ',' !in line then [line] else DropTrailingEmpty(Pieces(line))
  }

  /** What split returns: the pieces between commas, of which only empty ones at the end are
      missing; a line without commas comes back whole, even when it is empty. */
  lemma SplitPieces(line: string)
    ensures Split(line) <= Pieces(line)
    ensures forall j :: |Split(line)| <= j < |Pieces(line)| ==> Pieces(line)[j] == ""
    ensures |Split(line)| > 0 ==> Split(line)[|Split(line)| - 1] != "" || ',' !in line
    ensures ',' !in line ==> Split(line) == [line]
  {
    PiecesJoin(line);
    if ',' !in line {
      assert Pieces(line) == [line] by {
        JoinPieces([line]);
      }
    }
  }

  /** Splitting comma-free fields joined by commas gives them back unless the last is empty
      (and there are several). */
  lemma SplitJoin(fs: seq<string>)
    requires |fs| > 0 && NoComma(fs)
    requires |fs| == 1 || fs[|fs| - 1] != ""
    ensures Split(Join(fs)) == fs
  {
    JoinPieces(fs);
    if |fs| == 1 {
      assert Join(fs) == fs[0];
    } else {
      assert Join(fs) == fs[0] + "," + Join(fs[1..]);
      assert ',' in Join(fs) by {
        assert Join(fs)[|fs[0]|] == ',';
      }
    }
  }

  // ------------------------------------------------------------------------------------------
  // The scanner for lines with double quotes

  /** The fields of a line split at commas outside double quotes, the quote characters
      dropped; `quoted` tells whether the line starts inside quotes. */
  function QuotedPieces(line: string, quoted: bool): (r: seq<string>)
    ensures |r| > 0
  {
    if |line| == 0 then [""]
    else if !quoted && line[0] == ',' then [""] + QuotedPieces(line[1..], quoted)
    else if line[0] == '"' then QuotedPieces(line[1..], !quoted)
    else
      var rest := QuotedPieces(line[1..], quoted);
      [[line[0]] + rest[0]] + rest[1..]
  }

  /** The line without its double quotes. */
  function Unquote(line: string): (r: string)
    ensures |r| <= |line|
  {
    if |line| == 0 then ""
    else (if line[0] == '"' then "" else [line[0]]) + Unquote(line[1..])
  }

  /** How many commas of the line stand outside double quotes. */
  function OpenCommas(line: string, quoted: bool): nat {
    if |line| == 0 then 0
    else if !quoted && line[0] == ',' then 1 + OpenCommas(line[1..], quoted)
    else if line[0] == '"' then OpenCommas(line[1..], !quoted)
    else OpenCommas(line[1..], quoted)
  }

  /** The quoted fields rejoined with commas are the line without its quotes, and there is
      one more field than commas outside quotes. */
  lemma {:induction false} QuotedPiecesJoin(line: string, quoted: bool)
    ensures Join(QuotedPieces(line, quoted)) == Unquote(line)
    ensures |QuotedPieces(line, quoted)| == OpenCommas(line, quoted) + 1
  {
    if |line| > 0 {
      var q := if line[0] == '"' && !(!quoted && line[0] == ',') then !quoted else quoted;
      var rest := QuotedPieces(line[1..], q);
      QuotedPiecesJoin(line[1..], q);
      var p := QuotedPieces(line, quoted);
      if !quoted && line[0] == ',' {
        assert p == [""] + rest;
        assert Unquote(line) == [','] + Unquote(line[1..]);
        JoinEmptyFirst(rest);
      } else if line[0] == '"' {
        assert Unquote(line) == Unquote(line[1..]);
      } else {
        assert p == [[line[0]] + rest[0]] + rest[1..];
        assert Unquote(line) == [line[0]] + Unquote(line[1..]);
        JoinGlue(line[0], rest);
      }
    }
  }

  /** Without double quotes, the quoted split is the plain one. */
  lemma {:induction false} QuotedPiecesPlain(line: string)
    requires '"' !in line
    ensures QuotedPieces(line, false) == Pieces(line)
    ensures OpenCommas(line, false) == Commas(line)
  {
    if |line| > 0 {
      assert '"' !in line[1..] by {
        forall ch | ch in line[1..] ensures ch != '"' {
          assert ch in line;
        }
      }
      QuotedPiecesPlain(line[1..]);
    }
  }

  /** The scanner of parseLine: the four slots of rtnArr (None stands for null), the next slot
      to write (arrIndex), whether it is inside double quotes, and the field being built. */
  datatype Scanner = Scanner(slots: seq<Option<string>>, next: nat, quoted: bool, field: string)

  const Start: Scanner := Scanner([None, None, None, None], 0, false, "")

  /** One character. A comma outside quotes stores the field in the next slot; None is the
      ArrayIndexOutOfBoundsException raised by a comma when all four slots are written. A
      double quote toggles the quote state; every other character joins the field. */
  function Step(st: Scanner, ch: char): (r: Option<Scanner>)
    requires |st.slots| == 4
    ensures r.Some? ==> |r.value.slots| == 4
    ensures r.None? <==> !st.quoted && ch == ',' && st.next >= 4
  {
    if !st.quoted && ch == ',' then
      if st.next < 4 then Some(Scanner(st.slots[st.next := Some(st.field)], st.next + 1, st.quoted, ""))
      else None
    else if ch == '"' then Some(st.(quoted := !st.quoted))
    else Some(st.(field := st.field + [ch]))
  }

  /** The scanner run over the characters of the line, in order. */
  function Run(st: Scanner, line: string): (r: Option<Scanner>)
    requires |st.slots| == 4
    ensures r.Some? ==> |r.value.slots| == 4
    ensures r.Some? ==> st.next <= r.value.next
    ensures r.Some? && st.next <= 4 ==> r.value.next <= 4
    decreases |line|
  {
    if |line| == 0 then Some(st)
    else match Step(st, line[0])
      case None => None
      case Some(st') => Run(st', line[1..])
  }

  /** The try block of parseLine: the scan, then the last field stored in the fourth slot.
      None when the scan throws. */
  function ParseQuoted(line: string): (r: Option<seq<Option<string>>>)
    ensures r.Some? ==> |r.value| == 4
  {
    match Run(Start, line)
    case None => None
    case Some(st) => Some(st.slots[3 := Some(st.field)])
  }

  /** The field list with the field under construction glued to its first entry. */
  function Glued(field: string, fs: seq<string>): (gs: seq<string>)
    requires |fs| > 0
    ensures |gs| == |fs| && gs[0] == field + fs[0] && gs[1..] == fs[1..]
  {
    [field + fs[0]] + fs[1..]
  }

  /** The outcome `e` of a scan that still has the fields `gs` to store from slot `next` on,
      the last of them left under construction: they go into the slots in order, and the scan
      throws exactly when there are more of them to store than free slots. */
  predicate Stores(next: nat, slots: seq<Option<string>>, gs: seq<string>, e: Option<Scanner>)
    requires |slots| == 4 && |gs| > 0
  {
    var k := |gs| - 1;
    && (e.None? <==> next + k > 4)
    && (e.Some? ==>
          && |e.value.slots| == 4
          && e.value.field == gs[k]
          && forall j :: 0 <= j < 4 ==>
               e.value.slots[j] == if next <= j < next + k then Some(gs[j - next]) else slots[j])
  }

  /** The outcome `e` of a scan from `st` over a remaining line whose fields are `fs`: the
      first field is glued to the field under construction. */
  predicate Fits(st: Scanner, fs: seq<string>, e: Option<Scanner>)
    requires |st.slots| == 4 && |fs| > 0
  {
    Stores(st.next, st.slots, Glued(st.field, fs), e)
  }

  /** The scan from any state with at most four slots written behaves as Fits says. */
  lemma {:induction false} RunFields(st: Scanner, line: string)
    requires |st.slots| == 4 && st.next <= 4
    ensures Fits(st, QuotedPieces(line, st.quoted), Run(st, line))
    decreases |line|
  {
    if |line| == 0 {
      assert Glued(st.field, [""]) == [st.field] by {
        assert st.field + "" == st.field;
      }
    } else {
      var ch := line[0];
      var fs' := QuotedPieces(line[1..], st.quoted);
      if !st.quoted && ch == ',' {
        assert QuotedPieces(line, st.quoted) == [""] + fs';
        if st.next < 4 {
          var st' := Scanner(st.slots[st.next := Some(st.field)], st.next + 1, st.quoted, "");
          assert Step(st, ch) == Some(st');
          assert Run(st, line) == Run(st', line[1..]);
          RunFields(st', line[1..]);
          assert Glued(st'.field, fs') == fs' by {
            assert st'.field + fs'[0] == fs'[0];
            assert [fs'[0]] + fs'[1..] == fs';
          }
          assert Glued(st.field, [""] + fs') == [st.field] + fs' by {
            assert st.field + ([""] + fs')[0] == st.field;
            assert ([""] + fs')[1..] == fs';
          }
          StoresShift(st.next, st.slots, st.field, fs', Run(st, line));
        }
      } else if ch == '"' {
        var st' := st.(quoted := !st.quoted);
        assert Step(st, ch) == Some(st');
        RunFields(st', line[1..]);
      } else {
        var st' := st.(field := st.field + [ch]);
        assert Step(st, ch) == Some(st');
        assert Run(st, line) == Run(st', line[1..]);
        assert QuotedPieces(line, st.quoted) == [[ch] + fs'[0]] + fs'[1..];
        RunFields(st', line[1..]);
        assert Glued(st.field, [[ch] + fs'[0]] + fs'[1..]) == Glued(st'.field, fs') by {
          assert st'.field + fs'[0] == st.field + ([ch] + fs'[0]);
        }
      }
    }
  }

  /** Storing a field in the next free slot leaves the rest to store from the slot after. */
  lemma StoresShift(next: nat, slots: seq<Option<string>>, field: string, gs: seq<string>, e: Option<Scanner>)
    requires |slots| == 4 && next < 4 && |gs| > 0
    requires Stores(next + 1, slots[next := Some(field)], gs, e)
    ensures Stores(next, slots, [field] + gs, e)
  {
    var hs := [field] + gs;
    var k := |gs|;
    if e.Some? {
      assert e.value.field == hs[k];
      forall j | 0 <= j < 4
        ensures e.value.slots[j] == if next <= j < next + k then Some(hs[j - next]) else slots[j]
      {
        if next < j < next + k {
          assert hs[j - next] == gs[j - (next + 1)];
        }
      }
    }
  }

  /** The try block succeeds exactly when at most four commas stand outside quotes. Its four
      slots then hold the first fields in order, null where there are fewer than three
      commas, and the last slot holds the last field (with four commas the fourth field is
      overwritten by the fifth). */
  lemma ParseQuotedFields(line: string)
    ensures var fs := QuotedPieces(line, false);
            && (ParseQuoted(line).Some? <==> |fs| <= 5)
            && (ParseQuoted(line).Some? ==>
                  && ParseQuoted(line).value[3] == Some(fs[|fs| - 1])
                  && forall j :: 0 <= j < 3 ==>
                       ParseQuoted(line).value[j] == if j < |fs| - 1 then Some(fs[j]) else None)
  {
    var fs := QuotedPieces(line, false);
    RunFields(Start, line);
    assert Start.field + fs[0] == fs[0];
    assert [fs[0]] + fs[1..] == fs;
  }

  // ------------------------------------------------------------------------------------------
  // parseLine

  /** The String[] of split, as slots that are never null. */
  function Present(fs: seq<string>): (r: seq<Option<string>>)
    ensures |r| == |fs|
    ensures forall j :: 0 <= j < |fs| ==> r[j] == Some(fs[j])
  {
    if |fs| == 0 then [] else [Some(fs[0])] + Present(fs[1..])
  }

  /** parseLine: the scanner for a line with a double quote, split when there is none or
      when the scanner throws. */
  function ParseLine(line: string): (r: seq<Option<string>>)
    ensures '"' !in line ==> forall j :: 0 <= j < |r| ==> r[j].Some? && ',' !in r[j].value
    ensures |r| > 4 ==> r == Present(Split(line))
  {
    if '"' in line then
      match ParseQuoted(line)
      case Some(slots) => slots
      case None => Present(Split(line))
    else Present(Split(line))
  }

  /** A data row with three commas outside quotes parses to its four fields, quotes removed;
      a row with more than four falls back to split. */
  lemma ParseLineRow(line: string)
    ensures '"' in line && OpenCommas(line, false) == 3 ==> ParseLine(line) == Present(QuotedPieces(line, false))
    ensures '"' in line && OpenCommas(line, false) > 4 ==> ParseLine(line) == Present(Split(line))
  {
    QuotedPiecesJoin(line, false);
    ParseQuotedFields(line);
  }

  /** A row without quotes whose three commas separate four fields, the last non-empty,
      parses to exactly those fields. */
  lemma ParseLinePlain(fs: seq<string>)
    requires |fs| == 4 && NoComma(fs) && fs[3] != "" && forall j :: 0 <= j < 4 ==> '"' !in fs[j]
    ensures ParseLine(Join(fs)) == Present(fs)
  {
    SplitJoin(fs);
    var line := Join(fs);
    assert '"' !in line by {
      JoinChars(fs, '"');
    }
  }

  /** A character of the joined line is a comma or a character of some field. */
  lemma {:induction false} JoinChars(fs: seq<string>, ch: char)
    requires ch != ',' && forall j :: 0 <= j < |fs| ==> ch !in fs[j]
    ensures ch !in Join(fs)
  {
    if |fs| > 1 {
      JoinChars(fs[1..], ch);
      assert fs[0] == fs[0];
    }
  }

  // ------------------------------------------------------------------------------------------
  // The reading loop of loadData

  /** String.toLowerCase on the letters A to Z. */
  function Lower(s: string): (r: string)
    ensures |r| == |s|
    ensures forall j :: 0 <= j < |s| ==> !('A' <= r[j] <= 'Z')
    ensures forall j :: 0 <= j < |s| ==>
              r[j] == if 'A' <= s[j] <= 'Z' then (s[j] as int + 32) as char else s[j]
  {
    if |s| == 0 then ""
    else [if 'A' <= s[0] <= 'Z' then (s[0] as int + 32) as char else s[0]] + Lower(s[1..])
  }

  /** new CityNode(dataArr[0], dataArr[1], dataArr[2], Integer.parseInt(dataArr[3])): None when
      there are fewer than four fields or the id does not parse, both of which throw; a null
      name, country or subcountry becomes the empty string. `parseId` is Integer.parseInt. */
  function ToCity(fields: seq<Option<string>>, parseId: string -> Option<int>): (r: Option<City>)
    ensures r.Some? <==> |fields| >= 4 && fields[3].Some? && parseId(fields[3].value).Some?
    ensures r.Some? ==> (&& r.value.id == parseId(fields[3].value).value
                         && (fields[0].Some? ==> r.value.name == fields[0].value)
                         && (fields[0].None? ==> r.value.name == ""))
  {
    if |fields| < 4 || fields[3].None? then None
    else match parseId(fields[3].value)
      case None => None
      case Some(id) => Some(City(Text(fields[0]), Text(fields[1]), Text(fields[2]), id))
  }

  function Text(field: Option<string>): string {
    match field
    case None => ""
    case Some(s) => s
  }

  /** The loop of loadData over the lines after the header: each line, lower-cased and
      parsed, gives one record; the loop ends at the first empty line, at the end of the
      file, or at the first line that throws (the exception leaves the loop). */
  function ReadRecords(lines: seq<string>, parseId: string -> Option<int>): (r: seq<City>)
    ensures |r| <= |lines|
    ensures forall j :: 0 <= j < |r| ==>
              lines[j] != "" && ToCity(ParseLine(Lower(lines[j])), parseId) == Some(r[j])
    ensures |r| < |lines| ==>
              lines[|r|] == "" || ToCity(ParseLine(Lower(lines[|r|])), parseId).None?
  {
    if |lines| == 0 || lines[0] == "" then []
    else match ToCity(ParseLine(Lower(lines[0])), parseId)
      case None => []
      case Some(c) => [c] + ReadRecords(lines[1..], parseId)
  }

  /** loadData reads the header line and drops it before the loop. */
  function ReadFile(lines: seq<string>, parseId: string -> Option<int>): (r: seq<City>)
    ensures |lines| <= 1 ==> r == []
    ensures r == [] || |r| < |lines|
    ensures forall j :: 0 <= j < |r| ==>
              lines[j + 1] != "" && ToCity(ParseLine(Lower(lines[j + 1])), parseId) == Some(r[j])
  {
    if |lines| == 0 then [] else ReadRecords(lines[1..], parseId)
  }

  /** Nothing after the first empty line is read. */
  lemma {:induction false} ReadStopsAtBlank(lines: seq<string>, parseId: string -> Option<int>, i: nat)
    requires i < |lines| && lines[i] == ""
    ensures ReadRecords(lines, parseId) == ReadRecords(lines[..i], parseId)
  {
    if i > 0 && lines[0] != "" {
      assert lines[1..][..i - 1] == lines[..i][1..];
      ReadStopsAtBlank(lines[1..], parseId, i - 1);
    }
  }

}
