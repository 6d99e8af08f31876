/**
 * The pin resolver: choosing the target's `pins.js` among the lines that
 * `find` printed, and reading pin constants out of that file's text.
 * The `find` output and the file text are parameters.
 */
module Pins {
  import opened Wrappers
  import opened Text

  /** One pin constant for the generated C++ file. */
  datatype PinEntry = PinEntry(name: string, value: string)

  /** Why no pin table could be chosen: none of the `find` lines matched. */
  datatype PinsError = NoPinTable

  // ---------------------------------------------------------------------
  // parse_pins

  /** A line is a pin line when `line.split(' ')` has exactly four pieces. */
  predicate IsPinLine(line: string)
  {
    |Split(line, ' ')| == 4
  }

  /** Splitting on one space: a pin line is one with exactly three spaces, so
      two spaces in a row make an empty piece that counts toward the four. */
  lemma IsPinLineSpaces(line: string)
    ensures IsPinLine(line) <==> Count(line, ' ') == 3
  {
    SplitCount(line, ' ');
  }

  /** The entry of a pin line: piece 1 is the name, piece 3 without its last
      character (`slice(0, -1)`) is the value. */
  function LineEntry(line: string): (e: PinEntry)
    requires IsPinLine(line)
    ensures ' ' !in e.name && ' ' !in e.value
    ensures e.name == Split(line, ' ')[1]
    ensures e.value + DropLastOf(Split(line, ' ')[3]) == Split(line, ' ')[3]
  {
    SplitPiecesFree(line, ' ');
    var bits := Split(line, ' ');
    PinEntry(bits[1], DropLast(bits[3]))
  }

  /** What `slice(0, -1)` removes: the last character, or nothing from "". */
  function DropLastOf(s: string): (r: string)
    ensures |r| == if s == [] then 0 else 1
  {
    if s == [] then [] else [s[|s| - 1]]
  }

  /** `filter(bits.length == 4)` followed by `map` over the lines. */
  function ParseLines(lines: seq<string>): (r: seq<PinEntry>)
    ensures |r| <= |lines|
    ensures forall k :: 0 <= k < |r| ==> ' ' !in r[k].name && ' ' !in r[k].value
  {
    if lines == [] then []
    else (if IsPinLine(lines[0]) then [LineEntry(lines[0])] else []) + ParseLines(lines[1..])
  }

  /** `parse_pins` on the text of the file. */
  function ParsePins(pinData: string): (r: seq<PinEntry>)
    ensures |r| <= Count(pinData, '\n') + 1
    ensures forall k :: 0 <= k < |r| ==> ' ' !in r[k].name && ' ' !in r[k].value
  {
    SplitCount(pinData, '\n');
    ParseLines(Split(pinData, '\n'))
  }

  /** The offsets of the pin lines, ascending: exactly the lines that qualify. */
  function PinLineIndices(lines: seq<string>): (idx: seq<nat>)
    ensures forall k :: 0 <= k < |idx| ==> idx[k] < |lines| && IsPinLine(lines[idx[k]])
    ensures forall k, l :: 0 <= k < l < |idx| ==> idx[k] < idx[l]
    ensures forall i :: 0 <= i < |lines| && IsPinLine(lines[i]) ==> i in idx
  {
    if lines == [] then []
    else
      var n := |lines| - 1;
      var init := PinLineIndices(lines[..n]);
      assert forall i :: 0 <= i < n ==> lines[..n][i] == lines[i];
      init + (if IsPinLine(lines[n]) then [n] else [])
  }

  /** Parsing a concatenation of lines is the concatenation of the parses. */
  lemma {:induction false} ParseLinesAppend(a: seq<string>, b: seq<string>)
    ensures ParseLines(a + b) == ParseLines(a) + ParseLines(b)
  {
    if a == [] {
      assert a + b == b;
    } else {
      var rest := a[1..];
      assert a == [a[0]] + rest;
      assert a + b == [a[0]] + (rest + b);
      ParseLinesCons(a[0], rest);
      ParseLinesCons(a[0], rest + b);
      ParseLinesAppend(rest, b);
    }
  }

  lemma ParseLinesCons(line: string, rest: seq<string>)
    ensures ParseLines([line] + rest)
      == (if IsPinLine(line) then [LineEntry(line)] else []) + ParseLines(rest)
  {
    assert ([line] + rest)[0] == line;
    assert ([line] + rest)[1..] == rest;
  }

  /** Parsing lines with one more at the end parses that line last. */
  lemma ParseLinesSnoc(init: seq<string>, last: string)
    ensures ParseLines(init + [last])
      == ParseLines(init) + (if IsPinLine(last) then [LineEntry(last)] else [])
  {
    ParseLinesAppend(init, [last]);
    var tail: seq<string> := [];
    assert [last] == [last] + tail;
    ParseLinesCons(last, tail);
    assert ParseLines(tail) == [];
  }

  /** One entry per pin line, in input order: the k-th entry comes from the
      k-th line whose split has four pieces; every other line is dropped. */
  lemma {:induction false} ParseLinesIndexed(lines: seq<string>)
    ensures |ParseLines(lines)| == |PinLineIndices(lines)|
    ensures forall k :: 0 <= k < |ParseLines(lines)| ==>
      ParseLines(lines)[k] == LineEntry(lines[PinLineIndices(lines)[k]])
  {
    if lines != [] {
      var n := |lines| - 1;
      var init, x := lines[..n], lines[n];
      assert lines == init + [x];
      ParseLinesIndexed(init);
      ParseLinesSnoc(init, x);
      var ps, idx := ParseLines(init), PinLineIndices(init);
      var e, pi := ParseLines(lines), PinLineIndices(lines);
      assert pi == idx + (if IsPinLine(x) then [n] else []);
      assert e == ps + (if IsPinLine(x) then [LineEntry(x)] else []);
      forall k | 0 <= k < |e|
        ensures e[k] == LineEntry(lines[pi[k]])
      {
        if k < |ps| {
          assert e[k] == ps[k] && pi[k] == idx[k];
          assert idx[k] < n && init[idx[k]] == lines[idx[k]];
        } else {
          assert e[k] == LineEntry(x) && pi[k] == n;
        }
      }
    }
  }


  /** A file written as newline-free lines joined by newlines parses line by line. */
  lemma ParsePinsOfLines(lines: seq<string>)
    requires |lines| >= 1
    requires forall k :: 0 <= k < |lines| ==> '\n' !in lines[k]
    ensures ParsePins(Join(lines, "\n")) == ParseLines(lines)
  {
    SplitJoin(lines, '\n');
  }

  /** A line of four space-free words `w0 w1 w2 w3` is a pin line named `w1`
      whose value is `w3` without its last character, as in `var LED1 = 0x2;`. */
  lemma FourWordLine(w0: string, w1: string, w2: string, w3: string)
    requires ' ' !in w0 && ' ' !in w1 && ' ' !in w2 && ' ' !in w3
    ensures IsPinLine(w0 + " " + w1 + " " + w2 + " " + w3)
    ensures ParseLines([w0 + " " + w1 + " " + w2 + " " + w3]) == [PinEntry(w1, DropLast(w3))]
  {
    var line := w0 + " " + w1 + " " + w2 + " " + w3;
    assert line == w0 + [' '] + (w1 + [' '] + (w2 + [' '] + w3));
    SplitPrefix(w0, ' ', w1 + [' '] + (w2 + [' '] + w3));
    SplitPrefix(w1, ' ', w2 + [' '] + w3);
    SplitPrefix(w2, ' ', w3);
    SplitFree(w3, ' ');
    assert Split(line, ' ') == [w0, w1, w2, w3];
  }

  /** The line `some path TARGET_K64F 13;` gives the entry `path = 13`. */
  lemma PathLine()
    ensures ParseLines(["some path TARGET_K64F 13;"]) == [PinEntry("path", "13")]
  {
    assert "some path TARGET_K64F 13;" == "some" + " " + "path" + " " + "TARGET_K64F" + " " + "13;";
    FourWordLine("some", "path", "TARGET_K64F", "13;");
    assert DropLast("13;") == "13";
  }

  /** Two spaces in a row make an empty piece: `w0  w2 w3` is a pin line with
      an empty name, and `w0  w1 w2 w3` has five pieces and is dropped. */
  lemma DoubleSpaceLines(w0: string, w1: string, w2: string, w3: string)
    requires ' ' !in w0 && ' ' !in w1 && ' ' !in w2 && ' ' !in w3
    ensures ParseLines([w0 + "  " + w2 + " " + w3]) == [PinEntry("", DropLast(w3))]
    ensures ParseLines([w0 + "  " + w1 + " " + w2 + " " + w3]) == []
  {
    assert w0 + "  " + w2 + " " + w3 == w0 + " " + [] + " " + w2 + " " + w3;
    FourWordLine(w0, [], w2, w3);
    var long := w0 + "  " + w1 + " " + w2 + " " + w3;
    assert long == w0 + (" " + (" " + (w1 + (" " + (w2 + (" " + w3))))));
    CountZero(w0, ' ');
    CountZero(w1, ' ');
    CountZero(w2, ' ');
    CountZero(w3, ' ');
    CountAppend(" ", w3, ' ');
    CountAppend(w2, " " + w3, ' ');
    CountAppend(" ", w2 + (" " + w3), ' ');
    CountAppend(w1, " " + (w2 + (" " + w3)), ' ');
    CountAppend(" ", w1 + (" " + (w2 + (" " + w3))), ' ');
    CountAppend(" ", " " + (w1 + (" " + (w2 + (" " + w3)))), ' ');
    CountAppend(w0, " " + (" " + (w1 + (" " + (w2 + (" " + w3))))), ' ');
    IsPinLineSpaces(long);
  }

  // ---------------------------------------------------------------------
  // task pins.js: choosing the pin table

  /** The filter applied to each line of `find` output; every line it keeps
      names some `TARGET_` directory. */
  predicate Selected(line: string, target: string, variant: string)
    ensures Selected(line, target, variant) ==> Contains(line, "TARGET_")
  {
    ContainsPrefixOf(line, "TARGET_", target);
    assert "TARGET_MCU_" + target == "TARGET_" + ("MCU_" + target);
    ContainsPrefixOf(line, "TARGET_", "MCU_" + target);
    || Contains(line, "TARGET_" + target)
    || (Contains(line, "TARGET_MCU_" + target) && Contains(line, "TARGET_" + variant))
  }

  /** `result.stdout.split('\n').filter(...)`. */
  function SelectedLines(lines: seq<string>, target: string, variant: string): (files: seq<string>)
    ensures forall f :: f in files <==> f in lines && Selected(f, target, variant)
  {
    if lines == [] then []
    else
      (if Selected(lines[0], target, variant) then [lines[0]] else [])
      + SelectedLines(lines[1..], target, variant)
  }

  /** `files[0]`: the chosen pin table, or `NoPinTable` when nothing matched
      (`gulp.src(undefined)` then throws). */
  function PinFile(findStdout: string, target: string, variant: string): (r: Result<string, PinsError>)
    ensures r.Success? ==> r.value in Split(findStdout, '\n') && Selected(r.value, target, variant)
    ensures r.Failure? <==> forall l :: l in Split(findStdout, '\n') ==> !Selected(l, target, variant)
  {
    var files := SelectedLines(Split(findStdout, '\n'), target, variant);
    if files == [] then Failure(NoPinTable) else Success(files[0])
  }

  lemma {:induction false} FirstOfSelected(lines: seq<string>, target: string, variant: string)
    requires SelectedLines(lines, target, variant) != []
    ensures exists i :: (0 <= i < |lines| && lines[i] == SelectedLines(lines, target, variant)[0]
      && Selected(lines[i], target, variant)
      && forall j :: 0 <= j < i ==> !Selected(lines[j], target, variant))
  {
    if !Selected(lines[0], target, variant) {
      FirstOfSelected(lines[1..], target, variant);
      var i :| 0 <= i < |lines[1..]| && lines[1..][i] == SelectedLines(lines[1..], target, variant)[0]
        && Selected(lines[1..][i], target, variant)
        && forall j :: 0 <= j < i ==> !Selected(lines[1..][j], target, variant);
      assert forall j :: 1 <= j < i + 1 ==> lines[j] == lines[1..][j - 1];
      assert lines[i + 1] == SelectedLines(lines, target, variant)[0];
    } else {
      assert lines[0] == SelectedLines(lines, target, variant)[0];
    }
  }

  /** The chosen pin table is the first selected line of the `find` output;
      there is none exactly when no line is selected. */
  lemma PinFileIsFirstMatch(findStdout: string, target: string, variant: string)
    ensures PinFile(findStdout, target, variant).Success? ==>
      exists i :: (0 <= i < |Split(findStdout, '\n')|
        && Split(findStdout, '\n')[i] == PinFile(findStdout, target, variant).value
        && Selected(Split(findStdout, '\n')[i], target, variant)
        && forall j :: 0 <= j < i ==> !Selected(Split(findStdout, '\n')[j], target, variant))
    ensures PinFile(findStdout, target, variant).Failure? ==>
      forall i :: 0 <= i < |Split(findStdout, '\n')| ==> !Selected(Split(findStdout, '\n')[i], target, variant)
  {
    var lines := Split(findStdout, '\n');
    if SelectedLines(lines, target, variant) != [] {
      FirstOfSelected(lines, target, variant);
      var f := SelectedLines(lines, target, variant)[0];
      assert PinFile(findStdout, target, variant) == Success(f);
      var i :| 0 <= i < |lines| && lines[i] == f && Selected(lines[i], target, variant)
        && forall j :: 0 <= j < i ==> !Selected(lines[j], target, variant);
    } else {
      forall i | 0 <= i < |lines| ensures !Selected(lines[i], target, variant) {
        assert lines[i] in lines;
      }
    }
  }

  /** With an empty variant the second test is `indexOf('TARGET_') != -1`, which
      holds whenever the MCU test holds: the line needs only to name the MCU. */
  lemma EmptyVariantSelection(line: string, target: string)
    ensures Selected(line, target, "")
      <==> Contains(line, "TARGET_" + target) || Contains(line, "TARGET_MCU_" + target)
  {
    assert "TARGET_" + "" == "TARGET_";
    if Contains(line, "TARGET_MCU_" + target) {
      assert "TARGET_MCU_" + target == "TARGET_" + ("MCU_" + target);
      ContainsPrefixOf(line, "TARGET_", "MCU_" + target);
    }
  }

  /** The variant as the script computes it from a property of `util`: `FRDM`
      when that property is `K64F`, else "". */
  function VariantFrom(property: Option<string>): string
  {
    if property == Some("K64F") then "FRDM" else ""
  }

  /** As written, the script reads `util.env_target`, a property that does not
      exist, so the variant is always "". */
  function VariantAsWritten(): string
  {
    VariantFrom(None)
  }

  /** The evidently intended variant, read from the build target itself. */
  function BoardVariant(target: string): string
  {
    VariantFrom(Some(target))
  }

  /** Task `pins.js` as written: the variant is always empty. */
  function PinsTaskAsWritten(findStdout: string, target: string): (r: Result<string, PinsError>)
    ensures r.Success? ==>
      Contains(r.value, "TARGET_" + target) || Contains(r.value, "TARGET_MCU_" + target)
  {
    var r := PinFile(findStdout, target, VariantAsWritten());
    if r.Success? then EmptyVariantSelection(r.value, target); r else r
  }

  /** Task `pins.js` with the variant derived from the target. */
  function PinsTaskWithBoardVariant(findStdout: string, target: string): (r: Result<string, PinsError>)
    ensures r.Success? ==> Selected(r.value, target, VariantAsWritten())
    ensures target != "K64F" ==> r == PinsTaskAsWritten(findStdout, target)
  {
    var r := PinFile(findStdout, target, BoardVariant(target));
    if r.Success? then BoardVariantNarrowsSelection(r.value, target); r else r
  }

  /** The `find` output of one line chooses that line if and only if it is selected. */
  lemma OneLineOutput(line: string, target: string, variant: string)
    requires '\n' !in line
    ensures PinFile(line, target, variant)
      == if Selected(line, target, variant) then Success(line) else Failure(NoPinTable)
  {
    SplitFree(line, '\n');
    assert [line][1..] == [];
    assert SelectedLines([], target, variant) == [];
    assert SelectedLines([line], target, variant)
      == (if Selected(line, target, variant) then [line] else []);
  }

  /** For K64F the script as written accepts an MCU-only pin table, which the
      intended variant test rejects. */
  lemma McuOnlyTableAcceptedAsWritten()
    ensures PinsTaskAsWritten("TARGET_MCU_K64F", "K64F") == Success("TARGET_MCU_K64F")
    ensures PinsTaskWithBoardVariant("TARGET_MCU_K64F", "K64F") == Failure(NoPinTable)
  {
    McuOnlyLine();
    OneLineOutput("TARGET_MCU_K64F", "K64F", VariantAsWritten());
    OneLineOutput("TARGET_MCU_K64F", "K64F", BoardVariant("K64F"));
  }

  lemma McuOnlyLine()
    ensures Selected("TARGET_MCU_K64F", "K64F", VariantAsWritten())
    ensures !Selected("TARGET_MCU_K64F", "K64F", BoardVariant("K64F"))
  {
    var line := "TARGET_MCU_K64F";
    assert "TARGET_MCU_" + "K64F" == line;
    ContainsAt(line, line, 0);
    EmptyVariantSelection(line, "K64F");
    assert "TARGET_" + "K64F" == "TARGET_K64F";
    assert "TARGET_" + BoardVariant("K64F") == "TARGET_FRDM";
    NotContainsTargetK64F();
  }

  lemma NotContainsTargetK64F()
    ensures !Contains("TARGET_MCU_K64F", "TARGET_K64F")
    ensures !Contains("TARGET_MCU_K64F", "TARGET_FRDM")
  {
    var s := "TARGET_MCU_K64F";
    assert |s| == 15;
    NoMatchAt(s, "TARGET_K64F");
    NoMatchAt(s, "TARGET_FRDM");
  }

  /** Neither 11-character needle starting `TARGET_` followed by a `K` or `F`
      fits anywhere into `TARGET_MCU_K64F`. */
  lemma NoMatchAt(s: string, sub: string)
    requires s == "TARGET_MCU_K64F"
    requires sub == "TARGET_K64F" || sub == "TARGET_FRDM"
    ensures forall j: nat :: !MatchAt(s, sub, j)
  {
    assert sub[0] == 'T' && sub[7] != 'M' && |sub| == 11;
    NoMatchAtOffset(s, sub, 0, 7);
    NoMatchAtOffset(s, sub, 1, 0);
    NoMatchAtOffset(s, sub, 2, 0);
    NoMatchAtOffset(s, sub, 3, 0);
    NoMatchAtOffset(s, sub, 4, 0);
    assert forall j: nat :: j > 4 ==> !MatchAt(s, sub, j);
  }

  /** A needle whose `k`-th character differs from `s[j + k]` does not occur at `j`. */
  lemma NoMatchAtOffset(s: string, sub: string, j: nat, k: nat)
    requires k < |sub| && (j + k < |s| ==> s[j + k] != sub[k])
    ensures !MatchAt(s, sub, j)
  {
  }

  /** The corrected selection never selects more than the script as written,
      and differs from it only for K64F. */
  lemma BoardVariantNarrowsSelection(line: string, target: string)
    ensures Selected(line, target, BoardVariant(target)) ==> Selected(line, target, VariantAsWritten())
    ensures target != "K64F" ==>
      (Selected(line, target, BoardVariant(target)) <==> Selected(line, target, VariantAsWritten()))
  {
    EmptyVariantSelection(line, target);
  }

  /** For K64F a table under both `TARGET_MCU_K64F` and `TARGET_FRDM` is chosen. */
  lemma K64FFrdmTableSelected(line: string)
    requires Contains(line, "TARGET_MCU_K64F") && Contains(line, "TARGET_FRDM")
    ensures Selected(line, "K64F", BoardVariant("K64F"))
  {
    assert BoardVariant("K64F") == "FRDM";
    assert "TARGET_" + "FRDM" == "TARGET_FRDM";
    assert "TARGET_MCU_" + "K64F" == "TARGET_MCU_K64F";
  }

  /** With the variant taken from the target, a K64F build only uses a table
      that names the board, or names both the MCU and the FRDM variant. */
  lemma PinsTaskK64F(findStdout: string)
    ensures PinsTaskWithBoardVariant(findStdout, "K64F").Success? ==>
      var f := PinsTaskWithBoardVariant(findStdout, "K64F").value;
      Contains(f, "TARGET_K64F") || (Contains(f, "TARGET_MCU_K64F") && Contains(f, "TARGET_FRDM"))
  {
    assert BoardVariant("K64F") == "FRDM";
    assert "TARGET_" + "FRDM" == "TARGET_FRDM";
    assert "TARGET_MCU_" + "K64F" == "TARGET_MCU_K64F";
    assert "TARGET_" + "K64F" == "TARGET_K64F";
    PinFileIsFirstMatch(findStdout, "K64F", "FRDM");
  }
}
