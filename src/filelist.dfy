/**
 * The retry-list format: `saveFilesToFile` writes each path followed by a
 * line feed, and `readFileList` reads the lines back, trims each one and keeps
 * the non-empty ones. File contents are passed as text; opening, creating and
 * buffering files is not modelled.
 */
module FileList {
  import opened Strings

  /** `bufio.ScanLines` drops one carriage return at the end of a line. */
  function DropCR(s: string): (r: string)
    ensures HasSuffix(s, "\r") ==> r + "\r" == s
    ensures !HasSuffix(s, "\r") ==> r == s
  {
    if |s| > 0 && s[|s| - 1] == '\r' then s[..|s| - 1] else s
  }

  /**
   * The lines `bufio.Scanner` yields with `ScanLines`: text is split at each
   * line feed, and a final segment with no line feed after it is a line only
   * when it is not empty.
   */
  function ScanLines(text: string): (lines: seq<string>)
    ensures forall k :: 0 <= k < |lines| ==> '\n' !in lines[k]
    decreases |text|
  {
    if |text| == 0 then []
    else
      var k := IndexByte(text, '\n');
      if k == |text| then [DropCR(text)]
      else [DropCR(text[..k])] + ScanLines(text[k + 1..])
  }

  /** Every line trimmed, in order. */
  function TrimAll(lines: seq<string>): (r: seq<string>)
    ensures |r| == |lines|
    ensures forall k :: 0 <= k < |lines| ==> r[k] == TrimSpace(lines[k])
  {
    if lines == [] then [] else [TrimSpace(lines[0])] + TrimAll(lines[1..])
  }

  /** The non-empty entries, in order. */
  function NonEmpty(entries: seq<string>): seq<string> {
    if entries == [] then []
    else (if entries[0] == "" then [] else [entries[0]]) + NonEmpty(entries[1..])
  }

  /** The paths of a list of lines: each line trimmed, blank ones dropped, order kept. */
  function Paths(lines: seq<string>): seq<string> {
    NonEmpty(TrimAll(lines))
  }

  /** A path the retry format carries unchanged. */
  predicate IsListedPath(p: string) {
    p != "" && IsTrimmed(p) && '\n' !in p
  }

  lemma {:induction false} NonEmptyAppend(entries: seq<string>, e: string)
    ensures NonEmpty(entries + [e]) == NonEmpty(entries) + (if e == "" then [] else [e])
  {
    if entries != [] {
      assert (entries + [e])[1..] == entries[1..] + [e];
      NonEmptyAppend(entries[1..], e);
    } else {
      assert [] + [e] == [e];
    }
  }

  /** An entry of the result is an entry of the input, and is not empty. */
  lemma {:induction false} NonEmptyEntries(entries: seq<string>, k: nat)
    requires k < |NonEmpty(entries)|
    ensures NonEmpty(entries)[k] != "" && NonEmpty(entries)[k] in entries
  {
    if entries[0] == "" {
      NonEmptyEntries(entries[1..], k);
    } else if k > 0 {
      NonEmptyEntries(entries[1..], k - 1);
    }
  }

  /** Exactly the non-empty entries are kept: none is lost and none is added. */
  lemma {:induction false} NonEmptyMembers(entries: seq<string>, x: string)
    ensures x in NonEmpty(entries) <==> x in entries && x != ""
  {
    if entries != [] {
      NonEmptyMembers(entries[1..], x);
      assert entries == [entries[0]] + entries[1..];
    }
  }

  /** Every path read is non-empty, trimmed and free of line feeds. */
  lemma PathsListed(lines: seq<string>)
    requires forall k :: 0 <= k < |lines| ==> '\n' !in lines[k]
    ensures forall k :: 0 <= k < |Paths(lines)| ==> IsListedPath(Paths(lines)[k])
  {
    var t := TrimAll(lines);
    forall k | 0 <= k < |Paths(lines)| ensures IsListedPath(Paths(lines)[k]) {
      NonEmptyEntries(t, k);
      var j :| 0 <= j < |t| && t[j] == Paths(lines)[k];
      TrimSpaceIdempotent(lines[j]);
      if '\n' in t[j] {
        TrimSpaceChars(lines[j], '\n');
      }
    }
  }

  lemma TrimAllAppend(lines: seq<string>, line: string)
    ensures TrimAll(lines + [line]) == TrimAll(lines) + [TrimSpace(line)]
  {
    var longer := lines + [line];
    var a := TrimAll(longer);
    var b := TrimAll(lines) + [TrimSpace(line)];
    forall k | 0 <= k < |a| ensures a[k] == b[k] {
      if k < |lines| {
        assert longer[k] == lines[k];
      } else {
        assert longer[k] == line;
      }
    }
    assert a == b;
  }

  /** A line added at the end adds its trimmed text to the paths, unless it is blank. */
  lemma PathsSnoc(pre: seq<string>, line: string)
    ensures Paths(pre + [line]) == if TrimSpace(line) == "" then Paths(pre) else Paths(pre) + [TrimSpace(line)]
  {
    TrimAllAppend(pre, line);
    NonEmptyAppend(TrimAll(pre), TrimSpace(line));
  }

  /** One more line read adds its trimmed text to the paths, unless it is blank. */
  lemma PathsStep(lines: seq<string>, i: nat, path: string)
    requires i < |lines| && path == TrimSpace(lines[i])
    ensures Paths(lines[..i + 1]) == if path == "" then Paths(lines[..i]) else Paths(lines[..i]) + [path]
  {
    assert lines[..i + 1] == lines[..i] + [lines[i]];
    PathsSnoc(lines[..i], lines[i]);
  }

  /** `readFileList` over the text of the file. */
  method ReadFileList(text: string) returns (files: seq<string>)
    ensures files == Paths(ScanLines(text))
    ensures forall k :: 0 <= k < |files| ==> IsListedPath(files[k])
  {
    var lines := ScanLines(text);
    files := [];
    var i := 0;
    while i < |lines|
      invariant 0 <= i <= |lines|
      invariant files == Paths(lines[..i])
    {
      var path := TrimSpace(lines[i]);
      PathsStep(lines, i, path);
      if path != "" {
        files := files + [path];
      }
      i := i + 1;
    }
    assert lines[..i] == lines;
    PathsListed(lines);
  }

  /** The text `saveFilesToFile` writes: every path followed by a line feed. */
  function Serialized(files: seq<string>): (text: string)
    ensures files != [] ==> |text| > 0 && text[|text| - 1] == '\n'
  {
    if files == [] then "" else files[0] + "\n" + Serialized(files[1..])
  }

  lemma {:induction false} SerializedAppend(files: seq<string>, f: string)
    ensures Serialized(files + [f]) == Serialized(files) + f + "\n"
  {
    if files != [] {
      assert (files + [f])[1..] == files[1..] + [f];
      SerializedAppend(files[1..], f);
    } else {
      assert [] + [f] == [f];
    }
  }

  /** `saveFilesToFile`, returning the text it writes. */
  method SaveFilesToFile(files: seq<string>) returns (contents: string)
    ensures contents == Serialized(files)
    ensures |contents| == |files| + SumLength(files)
  {
    contents := "";
    var i := 0;
    while i < |files|
      invariant 0 <= i <= |files|
      invariant contents == Serialized(files[..i])
    {
      SerializedAppend(files[..i], files[i]);
      assert files[..i + 1] == files[..i] + [files[i]];
      contents := contents + (files[i] + "\n");
      i := i + 1;
    }
    assert files[..i] == files;
    SerializedLength(files);
  }

  function SumLength(files: seq<string>): nat {
    if files == [] then 0 else |files[0]| + SumLength(files[1..])
  }

  /** One line feed per path, no separators or padding beyond that. */
  lemma {:induction false} SerializedLength(files: seq<string>)
    ensures |Serialized(files)| == |files| + SumLength(files)
  {
    if files != [] {
      SerializedLength(files[1..]);
    }
  }

  /** The first line of a serialised list is its first path. */
  lemma ScanFirstLine(f: string, rest: seq<string>)
    requires IsListedPath(f)
    ensures ScanLines(Serialized([f] + rest)) == [f] + ScanLines(Serialized(rest))
  {
    var text := Serialized([f] + rest);
    assert ([f] + rest)[1..] == rest;
    assert text == f + ("\n" + Serialized(rest));
    RunBefore(text, f, "\n" + Serialized(rest), '\n');
    assert text[|f| + 1..] == Serialized(rest);
    TrimmedIff(f);
    assert DropCR(f) == f;
  }

  /**
   * A line ended by a line feed is scanned as that line, less one carriage
   * return at its end, and scanning carries on after the line feed.
   */
  lemma ScanSegment(seg: string, rest: string)
    requires '\n' !in seg
    ensures ScanLines(seg + "\n" + rest) == [DropCR(seg)] + ScanLines(rest)
  {
    var text := seg + "\n" + rest;
    assert text == seg + ("\n" + rest);
    RunBefore(text, seg, "\n" + rest, '\n');
    assert text[|seg| + 1..] == rest;
  }

  /** Text ending in a line feed, with one added when it is missing; empty text stays empty. */
  function Terminated(text: string): (r: string)
    ensures HasPrefix(r, text) && |r| <= |text| + 1
  {
    if text == [] || text[|text| - 1] == '\n' then text else text + "\n"
  }

  /**
   * The scanner splits text at its line feeds and nothing else: for text
   * without carriage returns, writing its lines back out one per line gives
   * the text again, with a final line feed added when the last line had none.
   */
  lemma {:induction false} ScanJoin(text: string)
    requires '\r' !in text
    ensures Serialized(ScanLines(text)) == Terminated(text)
    decreases |text|
  {
    if text != [] {
      var k := IndexByte(text, '\n');
      if k == |text| {
        ScanLastLine(text);
      } else {
        var seg := text[..k];
        var rest := text[k + 1..];
        CutAtLineFeed(text, k);
        ScanJoin(rest);
        ScanJoinStep(seg, rest);
        JoinedEnd(seg, rest);
        assert Serialized(ScanLines(text)) == seg + "\n" + Terminated(rest);
      }
    }
  }

  /** Text with a line feed at `k` is the part before it, the line feed and the part after it. */
  lemma CutAtLineFeed(text: string, k: nat)
    requires '\r' !in text && k < |text| && text[k] == '\n' && '\n' !in text[..k]
    ensures text == text[..k] + "\n" + text[k + 1..]
    ensures '\r' !in text[..k] && '\r' !in text[k + 1..] && '\n' !in text[..k]
  {
    assert text == text[..k] + [text[k]] + text[k + 1..];
    forall c | c in text[..k] || c in text[k + 1..] ensures c in text { }
  }

  /** Joining a line to what follows it keeps the ending of the rest. */
  lemma JoinedEnd(seg: string, rest: string)
    ensures seg + "\n" + Terminated(rest) == Terminated(seg + "\n" + rest)
  {
    if rest != [] {
      var text := seg + "\n" + rest;
      assert text[|text| - 1] == rest[|rest| - 1];
    }
  }

  /** A text without line feed is one line, written back with a line feed after it. */
  lemma ScanLastLine(text: string)
    requires '\r' !in text && |text| > 0 && IndexByte(text, '\n') == |text|
    ensures Serialized(ScanLines(text)) == Terminated(text)
  {
    assert text[..|text|] == text;
    var last := text[|text| - 1];
    assert last != '\n' && last != '\r' by {
      assert last in text;
    }
    assert Terminated(text) == text + "\n";
    assert DropCR(text) == text;
    assert ScanLines(text) == [text];
    assert Serialized([text]) == text + "\n" + Serialized([]) by {
      assert [text][1..] == [];
    }
  }

  /** A line without carriage return is written back as it was read. */
  lemma ScanJoinStep(seg: string, rest: string)
    requires '\n' !in seg && '\r' !in seg
    ensures Serialized(ScanLines(seg + "\n" + rest)) == seg + "\n" + Serialized(ScanLines(rest))
  {
    ScanSegment(seg, rest);
    assert DropCR(seg) == seg;
    var lines := [seg] + ScanLines(rest);
    assert lines[0] == seg && lines[1..] == ScanLines(rest);
  }

  /** A failure file read back as a retry file gives the same list of paths. */
  lemma {:induction false} RetryRoundTrip(files: seq<string>)
    requires forall k :: 0 <= k < |files| ==> IsListedPath(files[k])
    ensures Paths(ScanLines(Serialized(files))) == files
  {
    if files != [] {
      var f := files[0];
      assert files == [f] + files[1..];
      ScanFirstLine(f, files[1..]);
      var lines := ScanLines(Serialized(files));
      assert lines[0] == f && lines[1..] == ScanLines(Serialized(files[1..]));
      assert TrimAll(lines)[0] == f;
      assert TrimAll(lines)[1..] == TrimAll(lines[1..]);
      RetryRoundTrip(files[1..]);
    }
  }

  /** Writing out the list just read and reading it again changes nothing. */
  lemma ReadWriteRead(text: string)
    ensures Paths(ScanLines(Serialized(Paths(ScanLines(text))))) == Paths(ScanLines(text))
  {
    PathsListed(ScanLines(text));
    RetryRoundTrip(Paths(ScanLines(text)));
  }
}
