/**
 * The ledger: the lines of `public/.gitignore`. Each installed asset namespace
 * `ns` is recorded there as the line `ns/`; any other line is unrelated ignore
 * text that is kept verbatim and in order.
 *
 * Both synchronisers read the file with the same `preg_split` on "\r\n", "\r"
 * or "\n" and write it back with `implode("\n", ...)`.
 */
module Ledger {
  import opened Wrappers

  /** A character that begins a line break. */
  predicate IsBreak(c: char) {
    c == '\r' || c == '\n'
  }

  /** A line holds no line-break character. */
  predicate NoBreaks(s: string) {
    forall i :: 0 <= i < |s| ==> !IsBreak(s[i])
  }

  /**
   * `preg_split("/(\r\n?|\n)/", text)`: the lines of `text`. "\r\n" is one
   * break, a lone "\r" and a lone "\n" are one break each. The empty text has
   * one (empty) line, and a trailing break yields a trailing empty line.
   */
  function SplitLines(text: string): (lines: seq<string>)
    ensures |lines| >= 1
    ensures forall i :: 0 <= i < |lines| ==> NoBreaks(lines[i])
    ensures NoBreaks(text) ==> lines == [text]
    decreases |text|
  {
    if text == [] then [""]
    else if text[0] == '\n' then [""] + SplitLines(text[1..])
    else if text[0] == '\r' then
      if |text| > 1 && text[1] == '\n' then [""] + SplitLines(text[2..])
      else [""] + SplitLines(text[1..])
    else
      var rest := SplitLines(text[1..]);
      assert NoBreaks(text) ==> rest == [text[1..]];
      assert [text[0]] + text[1..] == text;
      [[text[0]] + rest[0]] + rest[1..]
  }

  /** `implode("\n", lines)`. */
  function JoinLines(lines: seq<string>): string
  {
    if |lines| == 0 then ""
    else if |lines| == 1 then lines[0]
    else lines[0] + "\n" + JoinLines(lines[1..])
  }

  /** The ledger line that records namespace `ns`. */
  function EntryFor(ns: string): (entry: string)
    ensures |entry| == |ns| + 1 && entry[..|ns|] == ns && entry[|ns|] == '/'
  {
    ns + "/"
  }

  /** No line occurs twice. */
  predicate NoDuplicates(lines: seq<string>) {
    forall i, j :: 0 <= i < j < |lines| ==> lines[i] != lines[j]
  }

  /** Appending a line that is not there keeps the lines distinct. */
  lemma AppendKeepsNoDuplicates(lines: seq<string>, line: string)
    requires NoDuplicates(lines) && line !in lines
    ensures NoDuplicates(lines + [line])
  {
  }

  // ---------------------------------------------------------------------
  // Split / join round trips

  /** A break-free line followed by "\n" splits off as exactly that line. */
  lemma {:induction false} SplitLineThenBreak(line: string, rest: string)
    requires NoBreaks(line)
    ensures SplitLines(line + "\n" + rest) == [line] + SplitLines(rest)
    decreases |line|
  {
    if line == [] {
      assert line + "\n" + rest == "\n" + rest;
    } else {
      var text := line + "\n" + rest;
      assert text[0] == line[0] && !IsBreak(text[0]);
      assert text[1..] == line[1..] + "\n" + rest;
      SplitLineThenBreak(line[1..], rest);
      assert [line[0]] + line[1..] == line;
    }
  }

  /** Splitting what was joined gives back the lines, when no line holds a break. */
  lemma {:induction false} SplitJoin(lines: seq<string>)
    requires |lines| >= 1
    requires forall i :: 0 <= i < |lines| ==> NoBreaks(lines[i])
    ensures SplitLines(JoinLines(lines)) == lines
    decreases |lines|
  {
    if |lines| > 1 {
      SplitJoin(lines[1..]);
      SplitLineThenBreak(lines[0], JoinLines(lines[1..]));
      assert [lines[0]] + lines[1..] == lines;
    }
  }

  /** Joining what was split gives back the text, when it holds no carriage return. */
  lemma {:induction false} JoinSplit(text: string)
    requires '\r' !in text
    ensures JoinLines(SplitLines(text)) == text
    decreases |text|
  {
    if text == [] {
    } else if text[0] == '\n' {
      JoinSplit(text[1..]);
      assert [text[0]] + text[1..] == text;
    } else {
      assert text[0] != '\r';
      JoinSplit(text[1..]);
      var rest := SplitLines(text[1..]);
      var lines := [[text[0]] + rest[0]] + rest[1..];
      assert lines[1..] == rest[1..];
      if |rest| == 1 {
        assert JoinLines(lines) == [text[0]] + rest[0];
      } else {
        assert JoinLines(rest) == rest[0] + "\n" + JoinLines(rest[1..]);
        assert JoinLines(lines) == [text[0]] + rest[0] + "\n" + JoinLines(rest[1..]);
      }
      assert [text[0]] + text[1..] == text;
    }
  }

  /** A "\r\n" ledger is rewritten with "\n" breaks: the round trip is not byte-exact then. */
  lemma CrLfIsNormalised()
    ensures JoinLines(SplitLines("a/\r\nb/")) == "a/\nb/"
  {
    var text := "a/\r\nb/";
    assert text[1..] == "/\r\nb/" && text[2..] == "\r\nb/" && text[4..] == "b/";
    assert NoBreaks("b/");
    assert SplitLines(text[2..]) == ["", "b/"];
    assert text[1] == '/' && [text[1]] + "" == "/";
    assert SplitLines(text[1..]) == ["/", "b/"];
    assert text[0] == 'a' && [text[0]] + "/" == "a/";
    assert SplitLines(text) == ["a/", "b/"];
  }

  // ---------------------------------------------------------------------
  // Removing a line (the uninstaller)

  /** `array_search($entry, $lines, true)`: the first index holding `entry`. */
  function IndexOf(lines: seq<string>, entry: string): (r: Option<nat>)
    ensures r.None? <==> entry !in lines
    ensures r.Some? ==> r.value < |lines| && lines[r.value] == entry && entry !in lines[..r.value]
  {
    if |lines| == 0 then None
    else if lines[0] == entry then Some(0)
    else
      match IndexOf(lines[1..], entry)
      case None => None
      case Some(i) =>
        assert lines[1..][..i] == lines[1..i + 1];
        assert lines[..i + 1] == [lines[0]] + lines[1..i + 1];
        Some(i + 1)
  }

  /**
   * `unset($lines[array_search($entry, $lines, true)])`: the first occurrence
   * of `entry` is dropped, every other line keeps its place in the order.
   */
  function RemoveFirst(lines: seq<string>, entry: string): (r: seq<string>)
    ensures entry !in lines ==> r == lines
  {
    match IndexOf(lines, entry)
    case None => lines
    case Some(i) => lines[..i] + lines[i + 1..]
  }

  /** When `entry` is one of the lines, the result is the lines around its first occurrence. */
  lemma RemoveFirstSplits(lines: seq<string>, entry: string)
    requires entry in lines
    ensures exists i :: 0 <= i < |lines| && lines[i] == entry && entry !in lines[..i]
                        && RemoveFirst(lines, entry) == lines[..i] + lines[i + 1..]
  {
    var i := IndexOf(lines, entry).value;
    assert lines[i] == entry && entry !in lines[..i];
  }

  /** Dropping the first occurrence of `entry` takes one `entry` out of the lines and nothing else. */
  lemma RemoveFirstCounts(lines: seq<string>, entry: string)
    ensures multiset(RemoveFirst(lines, entry)) == multiset(lines) - multiset{entry}
  {
    if entry in lines {
      var i := IndexOf(lines, entry).value;
      var before, after := lines[..i], lines[i + 1..];
      assert lines == before + [entry] + after;
      assert RemoveFirst(lines, entry) == before + after;
      DropOne(before, entry, after);
    } else {
      assert multiset(lines)[entry] == 0;
      assert multiset(lines) - multiset{entry} == multiset(lines);
    }
  }

  /** Taking one line out of the middle takes one copy of it out of the multiset. */
  lemma DropOne(before: seq<string>, line: string, after: seq<string>)
    ensures multiset(before + [line] + after) - multiset{line} == multiset(before + after)
  {
    assert multiset(before + [line] + after) == multiset(before) + multiset{line} + multiset(after);
    assert multiset(before + after) == multiset(before) + multiset(after);
  }

  /** A line that is second, after a different one, is the one dropped. */
  lemma RemoveSecond(first: string, entry: string, rest: seq<string>)
    requires first != entry
    ensures RemoveFirst([first, entry] + rest, entry) == [first] + rest
  {
    var lines := [first, entry] + rest;
    assert lines[..1] == [first] && lines[2..] == rest;
    assert IndexOf(lines, entry) == Some(1);
  }

  // ---------------------------------------------------------------------
  // Appending a line (the installer)

  /**
   * The installer's decision for namespace `ns` on ledger text `text`: None
   * when `ns/` is already a line (the file is not written), otherwise the
   * text to write, the old lines followed by `ns/`, joined with "\n".
   */
  function AppendEntry(text: string, ns: string): (r: Option<string>)
    ensures r.None? <==> EntryFor(ns) in SplitLines(text)
  {
    var lines := SplitLines(text);
    if EntryFor(ns) in lines then None
    else Some(JoinLines(lines + [EntryFor(ns)]))
  }

  /** The written text splits into the old lines with `ns/` appended after them. */
  lemma AppendEntryLines(text: string, ns: string)
    requires NoBreaks(ns)
    requires AppendEntry(text, ns).Some?
    ensures SplitLines(AppendEntry(text, ns).value) == SplitLines(text) + [EntryFor(ns)]
  {
    var lines := SplitLines(text) + [EntryFor(ns)];
    assert EntryFor(ns) == ns + "/";
    assert NoBreaks(EntryFor(ns));
    assert forall i :: 0 <= i < |lines| ==> NoBreaks(lines[i]);
    SplitJoin(lines);
  }

  /** Recording a namespace twice writes once: the second run finds the line. */
  lemma AppendEntryIdempotent(text: string, ns: string)
    requires NoBreaks(ns)
    requires AppendEntry(text, ns).Some?
    ensures AppendEntry(AppendEntry(text, ns).value, ns).None?
  {
    AppendEntryLines(text, ns);
    var lines := SplitLines(text) + [EntryFor(ns)];
    assert lines[|lines| - 1] == EntryFor(ns);
  }

  /** The installer never duplicates a ledger line. */
  lemma AppendEntryKeepsNoDuplicates(text: string, ns: string)
    requires NoBreaks(ns)
    requires NoDuplicates(SplitLines(text))
    requires AppendEntry(text, ns).Some?
    ensures NoDuplicates(SplitLines(AppendEntry(text, ns).value))
  {
    AppendEntryLines(text, ns);
  }

  /** A missing ledger reads as '': its single empty line stays first, so the text starts with "\n". */
  lemma AppendEntryToMissingLedger(ns: string)
    ensures AppendEntry("", ns) == Some("\n" + ns + "/")
  {
    var entry := EntryFor(ns);
    assert SplitLines("") == [""];
    assert entry !in [""];
    assert [""] + [entry] == ["", entry];
    assert JoinLines(["", entry]) == "" + "\n" + entry;
    assert "" + "\n" + entry == "\n" + ns + "/";
  }

  /**
   * Installing a namespace and then uninstalling it gives the ledger lines
   * back: the appended entry is the first occurrence the uninstaller drops.
   * When the ledger held no carriage return, the rewritten file is
   * byte-identical to the original.
   */
  lemma AppendThenRemove(text: string, ns: string)
    requires NoBreaks(ns)
    requires AppendEntry(text, ns).Some?
    ensures RemoveFirst(SplitLines(AppendEntry(text, ns).value), EntryFor(ns)) == SplitLines(text)
    ensures '\r' !in text ==> JoinLines(RemoveFirst(SplitLines(AppendEntry(text, ns).value), EntryFor(ns))) == text
  {
    var lines := SplitLines(text);
    AppendEntryLines(text, ns);
    var grown := lines + [EntryFor(ns)];
    assert grown[..|lines|] == lines;
    assert grown[|lines| + 1..] == [];
    assert IndexOf(grown, EntryFor(ns)) == Some(|lines|);
    if '\r' !in text {
      JoinSplit(text);
    }
  }

  /** The ledger "\na/\nb/\nc/" holds an empty first line and the entries of "a", "b" and "c". */
  lemma ThreeEntryLedger()
    ensures SplitLines("\na/\nb/\nc/") == ["", "a/", "b/", "c/"]
  {
    var lines := ["", "a/", "b/", "c/"];
    assert NoBreaks("a/") && NoBreaks("b/") && NoBreaks("c/");
    assert forall i :: 0 <= i < |lines| ==> NoBreaks(lines[i]);
    SplitJoin(lines);
    assert JoinLines(["c/"]) == "c/";
    assert JoinLines(["b/", "c/"]) == "b/" + "\n" + "c/";
    assert JoinLines(["a/", "b/", "c/"]) == "a/" + "\n" + ("b/" + "\n" + "c/");
    assert JoinLines(lines) == "" + "\n" + ("a/" + "\n" + ("b/" + "\n" + "c/"));
    assert "" + "\n" + ("a/" + "\n" + ("b/" + "\n" + "c/")) == "\na/\nb/\nc/";
  }
}
