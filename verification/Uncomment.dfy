/**
 Uncommenting a block of a file, and when that undoes commenting it out. Text is
 a sequence of bytes, written as characters.
 */
module Uncomment {
  import opened Options

  // The longest line a scanner returns: its buffer holds this many bytes and a newline.
  const MAX_LINE := 65535

  predicate OccursAt(s: string, t: string, i: nat) {
    i + |t| <= |s| && s[i..i + |t|] == t
  }

  lemma OccursInTail(s: string, t: string, i: nat)
    requires s != ""
    ensures OccursAt(s, t, i + 1) <==> OccursAt(s[1..], t, i)
  {
    if i + 1 + |t| <= |s| {
      assert s[1..][i..i + |t|] == s[i + 1..i + 1 + |t|];
    }
  }

  /** The first place where t occurs in s. */
  function Index(s: string, t: string): (r: Option<nat>)
    ensures r.Some? ==> OccursAt(s, t, r.value) && forall j: nat | j < r.value :: !OccursAt(s, t, j)
    ensures r.None? ==> forall j: nat | j <= |s| :: !OccursAt(s, t, j)
  {
    if OccursAt(s, t, 0) then Some(0)
    else if s == "" then None
    else
      assert forall j: nat | 1 <= j <= |s| :: OccursAt(s, t, j) == OccursAt(s[1..], t, j - 1) by {
        forall j: nat | 1 <= j <= |s|
          ensures OccursAt(s, t, j) == OccursAt(s[1..], t, j - 1)
        {
          OccursInTail(s, t, j - 1);
        }
      }
      match Index(s[1..], t)
      case None => None
      case Some(i) => Some(i + 1)
  }

  // Where the text occurs, and that no earlier place holds it.
  lemma IndexIsFirst(s: string, t: string, j: nat)
    ensures j + |t| <= |s| && s[j..j + |t|] == t ==> Index(s, t).Some? && Index(s, t).value <= j
    ensures Index(s, t).Some? ==>
      var i := Index(s, t).value;
      i + |t| <= |s| && s[i..i + |t|] == t
  {
    assert OccursAt(s, t, j) <==> j + |t| <= |s| && s[j..j + |t|] == t;
  }

  // The length of the first line.
  function LineEnd(s: string): (n: nat)
    ensures n <= |s| && '\n' !in s[..n] && (n < |s| ==> s[n] == '\n')
  {
    if s == "" || s[0] == '\n' then 0 else LineEnd(s[1..]) + 1
  }

  function DropCR(line: string): string {
    if line != "" && line[|line| - 1] == '\r' then line[..|line| - 1] else line
  }

  function TrimPrefix(s: string, prefix: string): string {
    if prefix <= s then s[|prefix|..] else s
  }

  // What one call of the scanner finds. A line that does not fit ends the scan like
  // the end of the input does; its caller asks for no reason.
  datatype ScanResult = End | Token(text: string, rest: string)

  function Scan(input: string): (r: ScanResult)
    ensures r.Token? ==> |r.rest| < |input| && '\n' !in r.text
  {
    var n := LineEnd(input);
    if input == "" || n > MAX_LINE then End
    else Token(DropCR(input[..n]), if n < |input| then input[n + 1..] else "")
  }

  // Every line that a scan of the input returns.
  function Tokens(input: string): seq<string>
    decreases |input|
  {
    match Scan(input)
    case End => []
    case Token(text, rest) => [text] + Tokens(rest)
  }

  function Trimmed(lines: seq<string>, prefix: string): (r: seq<string>)
    ensures |r| == |lines| && forall k | 0 <= k < |lines| :: r[k] == TrimPrefix(lines[k], prefix)
  {
    if lines == [] then [] else [TrimPrefix(lines[0], prefix)] + Trimmed(lines[1..], prefix)
  }

  function Join(lines: seq<string>): string
    requires lines != []
  {
    if |lines| == 1 then lines[0] else lines[0] + "\n" + Join(lines[1..])
  }

  // What the loop has still to write when the scanner stands at this token.
  function Remaining(scanned: ScanResult, prefix: string): string
    requires scanned.Token?
    decreases |scanned.rest|
  {
    var next := Scan(scanned.rest);
    TrimPrefix(scanned.text, prefix) + (if next.End? then "" else "\n" + Remaining(next, prefix))
  }

  lemma RemainingStep(out: string, scanned: ScanResult, prefix: string)
    requires scanned.Token?
    ensures var next, written := Scan(scanned.rest), out + TrimPrefix(scanned.text, prefix);
            out + Remaining(scanned, prefix)
            == if next.End? then written else written + "\n" + Remaining(next, prefix)
  {
    var next, trimmed := Scan(scanned.rest), TrimPrefix(scanned.text, prefix);
    if next.End? {
      assert Remaining(scanned, prefix) == trimmed;
    } else {
      assert out + (trimmed + ("\n" + Remaining(next, prefix))) == out + trimmed + "\n" + Remaining(next, prefix);
    }
  }

  lemma {:induction false} RemainingIsJoin(input: string, prefix: string)
    requires Scan(input).Token?
    ensures Remaining(Scan(input), prefix) == Join(Trimmed(Tokens(input), prefix))
    decreases |input|
  {
    var rest := Scan(input).rest;
    var tokens := Tokens(input);
    assert tokens[1..] == Tokens(rest);
    if Scan(rest).Token? {
      RemainingIsJoin(rest, prefix);
      JoinCons(TrimPrefix(tokens[0], prefix), Trimmed(tokens[1..], prefix));
    }
  }

  lemma JoinCons(line: string, lines: seq<string>)
    requires lines != []
    ensures Join([line] + lines) == line + ("\n" + Join(lines))
  {
    assert ([line] + lines)[1..] == lines;
  }

  // The block uncommented, or nothing where the scanner finds no line.
  function Block(target: string, prefix: string): Option<string> {
    if Tokens(target) == [] then None else Some(Join(Trimmed(Tokens(target), prefix)))
  }

  // The content with n bytes at place i replaced by the block, or nothing without either.
  function Replaced(content: string, i: Option<nat>, n: nat, block: Option<string>): Option<string>
    requires i.Some? ==> i.value + n <= |content|
  {
    if i.None? || block.None? then None
    else Some(content[..i.value] + block.value + content[i.value + n..])
  }

  // The file with the block uncommented, or nothing where the file is left alone.
  function Uncommented(content: string, target: string, prefix: string): Option<string> {
    Replaced(content, Index(content, target), |target|, Block(target, prefix))
  }

  datatype Outcome = Done | ReadFailed | NotFound | WriteFailed

  // The scanner loop: the lines of target less the prefix, between what comes before and
  // after them.
  method WriteLines(before: string, target: string, prefix: string, after: string) returns (out: string, any: bool)
    ensures any <==> Block(target, prefix).Some?
    ensures any ==> out == before + Block(target, prefix).value + after
  {
    out := before;
    var scanned := Scan(target);
    if scanned.End? {
      return out, false;
    }
    RemainingIsJoin(target, prefix);
    while true
      invariant scanned.Token? && before + Block(target, prefix).value == out + Remaining(scanned, prefix)
      decreases |scanned.rest|
    {
      RemainingStep(out, scanned, prefix);
      out := out + TrimPrefix(scanned.text, prefix);
      // A newline follows unless this was the last line.
      var next := Scan(scanned.rest);
      if next.End? {
        return out + after, true;
      }
      out := out + "\n";
      scanned := next;
    }
  }

  lemma ReplacedIs(content: string, i: nat, n: nat, block: string, out: string)
    requires i + n <= |content| && out == content[..i] + block + content[i + n..]
    ensures Replaced(content, Some(i), n, Some(block)) == Some(out)
  {
  }

  class Disk {
    var files: map<string, string>

    /** Uncomments the first occurrence of target. A failing write leaves some content behind. */
    method UncommentCode(filename: string, target: string, prefix: string, fault: Option<string>)
      returns (r: Outcome)
      modifies this
      ensures filename !in old(files) ==> r == ReadFailed && files == old(files)
      ensures filename in old(files) && Index(old(files)[filename], target).None? ==>
                r == NotFound && files == old(files)
      ensures filename in old(files) && Index(old(files)[filename], target).Some? ==>
                var text := Uncommented(old(files)[filename], target, prefix);
                && r == (if text.Some? && fault.Some? then WriteFailed else Done)
                && files == if text.None? then old(files)
                            else old(files)[filename := if fault.Some? then fault.value else text.value]
    {
      if filename !in files {
        return ReadFailed;
      }
      var content := files[filename];
      var idx := Index(content, target);
      if idx.None? {
        return NotFound;
      }
      var out, any := WriteLines(content[..idx.value], target, prefix, content[idx.value + |target|..]);
      if !any {
        return Done;
      }
      ReplacedIs(content, idx.value, |target|, Block(target, prefix).value, out);
      if fault.Some? {
        files := files[filename := fault.value];
        return WriteFailed;
      }
      files := files[filename := out];
      return Done;
    }
  }

  predicate Lines(lines: seq<string>) {
    lines != [] && forall k | 0 <= k < |lines| :: '\n' !in lines[k]
  }

  /** The lines commented out. */
  function Commented(lines: seq<string>, prefix: string): (r: seq<string>)
    ensures |r| == |lines| && forall k | 0 <= k < |lines| :: r[k] == prefix + lines[k]
  {
    seq(|lines|, k requires 0 <= k < |lines| => prefix + lines[k])
  }

  // The commented line is short enough to be scanned and loses no carriage return.
  predicate Survives(commented: string) {
    |commented| <= MAX_LINE && (commented == "\r" || DropCR(commented) == commented)
  }

  lemma {:induction false} LineEndIsFirst(line: string, rest: string)
    requires '\n' !in line && (rest == "" || rest[0] == '\n')
    ensures LineEnd(line + rest) == |line|
  {
    if line != "" {
      assert (line + rest)[1..] == line[1..] + rest;
      LineEndIsFirst(line[1..], rest);
    } else {
      assert line + rest == rest;
    }
  }

  // Lines can be read back from their joining.
  lemma {:induction false} JoinInjective(a: seq<string>, b: seq<string>)
    requires Lines(a) && Lines(b) && Join(a) == Join(b)
    ensures a == b
    decreases |a|
  {
    FirstLine(a);
    FirstLine(b);
    assert a[0] == Join(a)[..|a[0]|] == b[0];
    if |a| > 1 {
      assert Join(a[1..]) == Join(a)[|a[0]| + 1..] == Join(b[1..]);
      JoinInjective(a[1..], b[1..]);
      assert a == [a[0]] + a[1..] && b == [b[0]] + b[1..];
    } else {
      assert a == [a[0]] && b == [b[0]];
    }
  }

  lemma FirstLine(a: seq<string>)
    requires Lines(a)
    ensures LineEnd(Join(a)) == |a[0]| && a[0] <= Join(a)
    ensures |Join(a)| == |a[0]| <==> |a| == 1
    ensures |a| > 1 ==> Join(a)[|a[0]| + 1..] == Join(a[1..])
  {
    if |a| == 1 {
      assert a[0] + "" == a[0];
      LineEndIsFirst(a[0], "");
    } else {
      assert Join(a) == a[0] + ("\n" + Join(a[1..]));
      LineEndIsFirst(a[0], "\n" + Join(a[1..]));
    }
  }

  // The lines before the first that is too long.
  function Scanned(lines: seq<string>): (r: seq<string>)
    ensures |r| <= |lines|
    ensures forall k | 0 <= k < |r| :: |lines[k]| <= MAX_LINE && r[k] == DropCR(lines[k])
    ensures |r| < |lines| ==> |lines[|r|]| > MAX_LINE
  {
    if lines == [] || |lines[0]| > MAX_LINE then [] else [DropCR(lines[0])] + Scanned(lines[1..])
  }

  // A scan does not return an empty line at the end.
  function WithoutEmptyEnd(lines: seq<string>): seq<string>
    requires lines != []
  {
    if lines[|lines| - 1] == "" then lines[..|lines| - 1] else lines
  }

  // A scan of joined lines returns just those.
  lemma {:induction false} TokensOfJoin(lines: seq<string>)
    requires Lines(lines)
    ensures Tokens(Join(lines)) == Scanned(WithoutEmptyEnd(lines))
  {
    FirstLine(lines);
    assert Join(lines)[..|lines[0]|] == lines[0];
    if |lines| > 1 {
      assert WithoutEmptyEnd(lines)[1..] == WithoutEmptyEnd(lines[1..]);
      if |lines[0]| <= MAX_LINE {
        TokensOfJoin(lines[1..]);
      }
    }
  }

  lemma SurvivesExactly(commented: string)
    requires commented != ""
    ensures
      Survives(commented) <==>
      |commented| < 0x1_0000 && (commented == "\r" || commented[|commented| - 1] != '\r')
  {
    var n := |commented| - 1;
    assert commented[n] == '\r' ==> |DropCR(commented)| == n;
  }

  // One call of the scanner: the line, less one carriage return at its end, and what comes
  // after the newline, unless the line does not fit.
  lemma ScanReads(line: string, rest: string)
    requires '\n' !in line && (rest == "" || rest[0] == '\n') && line + rest != ""
    ensures
      Scan(line + rest) ==
        if |line| > 65535 then End
        else Token(if line != "" && line[|line| - 1] == '\r' then line[..|line| - 1] else line,
                   if rest == "" then "" else rest[1..])
  {
    LineEndIsFirst(line, rest);
    assert (line + rest)[..|line|] == line;
    if rest != "" {
      assert (line + rest)[|line| + 1..] == rest[1..];
    }
  }

  // The line that is written for a line of the block: less one carriage return at its end,
  // and then less the prefix if it starts with it.
  predicate WrittenFor(line: string, prefix: string, written: string) {
    var l := if line != "" && line[|line| - 1] == '\r' then line[..|line| - 1] else line;
    if prefix <= l then l == prefix + written else written == l
  }

  /**
   Any block whose lines fit is written back line by line: lines that start with the
   prefix lose it, and the others stay.
   */
  lemma BlockLineByLine(lines: seq<string>, prefix: string, written: seq<string>)
    requires Lines(lines) && lines[|lines| - 1] != "" && |written| == |lines|
    requires forall k | 0 <= k < |lines| :: |lines[k]| <= 65535 && WrittenFor(lines[k], prefix, written[k])
    ensures Block(Join(lines), prefix) == Some(Join(written))
  {
    TokensOfJoin(lines);
    var tokens := Scanned(lines);
    assert |tokens| == |lines|;
    forall k | 0 <= k < |lines|
      ensures Trimmed(tokens, prefix)[k] == written[k]
    {
      assert tokens[k] == DropCR(lines[k]) && WrittenFor(lines[k], prefix, written[k]);
    }
    assert Trimmed(tokens, prefix) == written;
  }

  lemma TrimsBack(prefix: string, line: string)
    requires prefix != ""
    ensures TrimPrefix(DropCR(prefix + line), prefix) == line
       <==> (prefix + line == "\r" || DropCR(prefix + line) == prefix + line)
  {
    var c := prefix + line;
    if DropCR(c) == c {
      assert prefix <= c && c[|prefix|..] == line;
    } else if line == "" {
      assert c == prefix && DropCR(c) == prefix[..|prefix| - 1];
    } else {
      assert prefix <= DropCR(c);
    }
  }

  // The lines that uncommenting writes are the ones commented out just when all survive.
  lemma TrimmedBack(lines: seq<string>, prefix: string)
    requires prefix != ""
    ensures Trimmed(Scanned(Commented(lines, prefix)), prefix) == lines
       <==> forall k | 0 <= k < |lines| :: Survives(prefix + lines[k])
  {
    var commented := Commented(lines, prefix);
    var scanned := Scanned(commented);
    forall k | 0 <= k < |scanned|
      ensures Trimmed(scanned, prefix)[k] == lines[k] <==> Survives(prefix + lines[k])
    {
      TrimsBack(prefix, lines[k]);
    }
    if |scanned| < |lines| {
      assert !Survives(prefix + lines[|scanned|]);
    }
  }

  lemma TrimmedLines(lines: seq<string>, prefix: string)
    requires Lines(lines) && Scanned(lines) != []
    ensures Lines(Trimmed(Scanned(lines), prefix))
  {
    var scanned := Scanned(lines);
    forall k | 0 <= k < |scanned|
      ensures '\n' !in TrimPrefix(scanned[k], prefix)
    {
      assert '\n' !in lines[k] && scanned[k] == DropCR(lines[k]);
    }
  }

  lemma SameMiddle(before: string, a: string, b: string, after: string)
    ensures before + a + after == before + b + after <==> a == b
  {
    if before + a + after == before + b + after {
      assert (before + a + after)[|before|..|before| + |a|] == a;
      assert (before + b + after)[|before|..|before| + |b|] == b;
    }
  }

  // The block that is written back is the lines exactly when all of them survive.
  lemma BlockRestored(lines: seq<string>, prefix: string)
    requires Lines(lines) && prefix != "" && '\n' !in prefix
    ensures var target := Join(Commented(lines, prefix));
            var block := Block(target, prefix);
            (if block.Some? then block.value else target) == Join(lines)
            <==> forall k | 0 <= k < |lines| :: Survives(prefix + lines[k])
  {
    var commented := Commented(lines, prefix);
    TokensOfJoin(commented);
    TrimmedBack(lines, prefix);
    if Scanned(commented) == [] {
      if Join(commented) == Join(lines) {
        JoinInjective(commented, lines);
      }
    } else {
      TrimmedLines(commented, prefix);
      if Join(Trimmed(Scanned(commented), prefix)) == Join(lines) {
        JoinInjective(Trimmed(Scanned(commented), prefix), lines);
      }
    }
  }

  lemma UncommentedBetween(before: string, target: string, prefix: string, after: string)
    requires Index(before + target + after, target) == Some(|before|)
    ensures var block := Block(target, prefix);
            Uncommented(before + target + after, target, prefix)
            == if block.None? then None else Some(before + block.value + after)
  {
    var content := before + target + after;
    assert content[..|before|] == before && content[|before| + |target|..] == after;
  }

  /**
   Uncommenting a block where it first occurs restores the lines and leaves the text
   around them alone exactly when every commented line survives the scanner.
   */
  lemma UncommentUndoesComment(before: string, lines: seq<string>, prefix: string, after: string)
    requires Lines(lines) && prefix != "" && '\n' !in prefix
    requires var target := Join(Commented(lines, prefix)); Index(before + target + after, target) == Some(|before|)
    ensures var target := Join(Commented(lines, prefix));
            var content := before + target + after;
            var result := Uncommented(content, target, prefix);
            (if result.Some? then result.value else content) == before + Join(lines) + after
            <==> forall k | 0 <= k < |lines| :: Survives(prefix + lines[k])
  {
    var target := Join(Commented(lines, prefix));
    var block := Block(target, prefix);
    UncommentedBetween(before, target, prefix, after);
    BlockRestored(lines, prefix);
    SameMiddle(before, if block.Some? then block.value else target, Join(lines), after);
  }

  // A carriage return at the end of a commented line is lost.
  lemma ReturnIsLost()
    ensures Uncommented("#a\r", "#a\r", "#") == Some("a")
  {
    var line := "#a\r";
    LineEndIsFirst(line, "");
    assert line + "" == line && OccursAt(line, line, 0) && DropCR(line) == "#a";
    assert Scan(line) == Token("#a", "") && Tokens("") == [];
    assert Tokens(line) == ["#a"] && TrimPrefix("#a", "#") == "a";
    assert Trimmed(["#a"], "#") == ["a"] && Index(line, line) == Some(0);
    assert line[..0] + "a" + line[|line|..] == "a";
  }
}
