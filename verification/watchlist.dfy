/**
 * The watchlist: the text of `watchlist.txt`, one mount per line. Lines that
 * start with `#` are comments; every other line is kept, stripped of
 * surrounding white space, in file order. Blank lines are kept (as "").
 */
module WatchList {

  /** White space as Go's unicode.IsSpace defines it. */
  predicate IsSpace(c: char) {
    c == '\t' || c == '\n' || c == '\U{B}' || c == '\U{C}' || c == '\r' || c == ' '
    || c == '\U{85}' || c == '\U{A0}' || c == '\U{1680}'
    || ('\U{2000}' <= c <= '\U{200A}')
    || c == '\U{2028}' || c == '\U{2029}' || c == '\U{202F}' || c == '\U{205F}' || c == '\U{3000}'
  }

  /** In the Latin-1 range the white space characters are exactly tab,
      newline, vertical tab, form feed, carriage return, space, NEL and
      no-break space; above it only Unicode White_Space characters count. */
  lemma Latin1Spaces(c: char)
    ensures c < '\U{100}' ==> (IsSpace(c) <==> c in {'\t', '\n', '\U{B}', '\U{C}', '\r', ' ', '\U{85}', '\U{A0}'})
  {
  }

  /** `s` without its leading white space. */
  function TrimLeft(s: string): string {
    if s != [] && IsSpace(s[0]) then TrimLeft(s[1..]) else s
  }

  /** `s` without its trailing white space. */
  function TrimRight(s: string): string {
    if s != [] && IsSpace(s[|s| - 1]) then TrimRight(s[..|s| - 1]) else s
  }

  /** strings.TrimSpace: `s` without leading and trailing white space. The
      result is no longer than `s` and neither starts nor ends with white
      space; `TrimSpaceSlice` says which part of `s` it is. */
  function TrimSpace(s: string): (r: string)
    ensures |r| <= |s|
    ensures r == [] || (!IsSpace(r[0]) && !IsSpace(r[|r| - 1]))
  {
    TrimLeftDrops(s);
    TrimRightDrops(TrimLeft(s));
    TrimRight(TrimLeft(s))
  }

  /** TrimLeft drops a run of white space from the front and stops at the
      first other character. */
  lemma {:induction false} TrimLeftDrops(s: string)
    ensures var r := TrimLeft(s);
      && |r| <= |s| && r == s[|s| - |r|..]
      && (forall i :: 0 <= i < |s| - |r| ==> IsSpace(s[i]))
      && (r == [] || !IsSpace(r[0]))
  {
    if s != [] && IsSpace(s[0]) {
      var t := s[1..];
      TrimLeftDrops(t);
      var r := TrimLeft(t);
      assert TrimLeft(s) == r;
      assert s[|s| - |r|..] == t[|t| - |r|..];
      forall i | 0 <= i < |s| - |r| ensures IsSpace(s[i]) {
        if i > 0 {
          assert s[i] == t[i - 1];
        }
      }
    }
  }

  /** TrimRight drops a run of white space from the back and stops at the
      last other character. */
  lemma {:induction false} TrimRightDrops(s: string)
    ensures var r := TrimRight(s);
      && |r| <= |s| && r == s[..|r|]
      && (forall i :: |r| <= i < |s| ==> IsSpace(s[i]))
      && (r == [] || !IsSpace(r[|r| - 1]))
  {
    if s != [] && IsSpace(s[|s| - 1]) {
      var t := s[..|s| - 1];
      TrimRightDrops(t);
      var r := TrimRight(t);
      assert TrimRight(s) == r;
      assert s[..|r|] == t[..|r|];
      forall i | |r| <= i < |s| ensures IsSpace(s[i]) {
        if i < |s| - 1 {
          assert s[i] == t[i];
        }
      }
    }
  }

  /** TrimSpace keeps the contiguous piece of its input that starts after the
      leading white space, drops only white space around it, and leaves no
      white space at either end. */
  lemma TrimSpaceSlice(s: string)
    ensures var r, i := TrimSpace(s), |s| - |TrimLeft(s)|;
      && 0 <= i && i + |r| <= |s| && r == s[i..i + |r|]
      && (forall k :: 0 <= k < i ==> IsSpace(s[k]))
      && (forall k :: i + |r| <= k < |s| ==> IsSpace(s[k]))
    ensures var r := TrimSpace(s); r == [] || (!IsSpace(r[0]) && !IsSpace(r[|r| - 1]))
  {
    var l := TrimLeft(s);
    TrimLeftDrops(s);
    var r := TrimRight(l);
    TrimRightDrops(l);
    var i := |s| - |l|;
    assert l == s[i..];
    assert r == l[..|r|];
    assert r == s[i..i + |r|] by {
      assert s[i..i + |r|] == s[i..][..|r|];
    }
    forall k | i + |r| <= k < |s| ensures IsSpace(s[k]) {
      assert s[k] == l[k - i];
      assert IsSpace(l[k - i]);
    }
  }

  /** A line with no white space at its ends is left as it is. */
  lemma TrimSpaceFixed(s: string)
    requires s == [] || (!IsSpace(s[0]) && !IsSpace(s[|s| - 1]))
    ensures TrimSpace(s) == s
  {
  }

  /** Trimming twice is trimming once. */
  lemma TrimSpaceIdempotent(s: string)
    ensures TrimSpace(TrimSpace(s)) == TrimSpace(s)
  {
    TrimSpaceSlice(s);
    TrimSpaceFixed(TrimSpace(s));
  }

  /** The lines joined back together with "\n" between them. */
  function Join(lines: seq<string>): string
    requires |lines| >= 1
  {
    if |lines| == 1 then lines[0] else lines[0] + "\n" + Join(lines[1..])
  }

  /** The number of newline characters in `s`. */
  function Newlines(s: string): nat {
    if s == [] then 0 else (if s[0] == '\n' then 1 else 0) + Newlines(s[1..])
  }

  /** strings.Split(s, "\n"): the pieces between newlines, including the
      (possibly empty) piece after the last one. */
  function Split(s: string): (lines: seq<string>)
    ensures |lines| == Newlines(s) + 1
    ensures forall l :: l in lines ==> '\n' !in l
  {
    if s == [] then [""]
    else
      var rest := Split(s[1..]);
      if s[0] == '\n' then [""] + rest
      else [[s[0]] + rest[0]] + rest[1..]
  }

  /** Splitting loses nothing: joining the pieces gives the text back. */
  lemma {:induction false} JoinSplit(s: string)
    ensures Join(Split(s)) == s
  {
    if s != [] {
      var rest := Split(s[1..]);
      JoinSplit(s[1..]);
      if s[0] == '\n' {
        assert Split(s) == [""] + rest;
        JoinFirst([""] + rest);
      } else {
        assert Split(s) == [[s[0]] + rest[0]] + rest[1..];
        JoinExtendFirst(s[0], rest);
      }
      assert s == [s[0]] + s[1..];
    }
  }

  /** Joining a first line "" in front of others puts a newline in front. */
  lemma JoinFirst(lines: seq<string>)
    requires |lines| >= 2 && lines[0] == ""
    ensures Join(lines) == "\n" + Join(lines[1..])
  {
  }

  /** Putting a character at the front of the first line puts it at the front
      of the join. */
  lemma {:induction false} JoinExtendFirst(c: char, lines: seq<string>)
    requires |lines| >= 1
    ensures Join([[c] + lines[0]] + lines[1..]) == [c] + Join(lines)
  {
    var ext := [[c] + lines[0]] + lines[1..];
    assert ext[1..] == lines[1..];
    if |lines| > 1 {
      assert Join(ext) == ([c] + lines[0]) + "\n" + Join(lines[1..]);
    }
  }

  /** Splitting the join of newline-free lines gives those lines back. */
  lemma {:induction false} SplitJoin(lines: seq<string>)
    requires |lines| >= 1
    requires forall l :: l in lines ==> '\n' !in l
    ensures Split(Join(lines)) == lines
  {
    if |lines| == 1 {
      SplitLine(lines[0]);
    } else {
      var tail := Join(lines[1..]);
      SplitJoin(lines[1..]);
      SplitPrefix(lines[0], tail);
      assert lines == [lines[0]] + lines[1..];
    }
  }

  /** A newline-free line splits into itself. */
  lemma {:induction false} SplitLine(l: string)
    requires '\n' !in l
    ensures Split(l) == [l]
  {
    if l != [] {
      SplitLine(l[1..]);
      assert l == [l[0]] + l[1..];
    }
  }

  /** A newline-free first line, a newline, and then the rest. */
  lemma {:induction false} SplitPrefix(l: string, rest: string)
    requires '\n' !in l
    ensures Split(l + "\n" + rest) == [l] + Split(rest)
  {
    if l == [] {
      assert l + "\n" + rest == "\n" + rest;
      assert ("\n" + rest)[1..] == rest;
    } else {
      var s := l + "\n" + rest;
      assert s[1..] == l[1..] + "\n" + rest;
      SplitPrefix(l[1..], rest);
      assert l == [l[0]] + l[1..];
    }
  }

  /** strings.HasPrefix(line, "#"): the line begins with "#". */
  predicate IsComment(line: string)
    ensures IsComment(line) <==> "#" <= line
  {
    |line| > 0 && line[0] == '#'
  }

  /** The watched mounts a sequence of lines names. */
  function Parse(lines: seq<string>): (wl: seq<string>)
    ensures |wl| <= |lines|
  {
    if lines == [] then []
    else (if IsComment(lines[0]) then [] else [TrimSpace(lines[0])]) + Parse(lines[1..])
  }

  /** Parsing goes line by line: the mounts of two consecutive pieces of the
      file are those of the first piece followed by those of the second. */
  lemma {:induction false} ParseAppend(a: seq<string>, b: seq<string>)
    ensures Parse(a + b) == Parse(a) + Parse(b)
  {
    if a == [] {
      assert a + b == b;
    } else {
      assert (a + b)[1..] == a[1..] + b;
      ParseAppend(a[1..], b);
    }
  }

  /** The number of comment lines. */
  function Comments(lines: seq<string>): nat {
    if lines == [] then 0 else (if IsComment(lines[0]) then 1 else 0) + Comments(lines[1..])
  }

  /** One mount per line that is not a comment, and every mount comes from
      such a line, trimmed. */
  lemma {:induction false} ParseContents(lines: seq<string>)
    ensures |Parse(lines)| == |lines| - Comments(lines)
    ensures forall l :: l in lines && !IsComment(l) ==> TrimSpace(l) in Parse(lines)
    ensures forall w :: w in Parse(lines) ==> exists l :: l in lines && !IsComment(l) && w == TrimSpace(l)
  {
    if lines != [] {
      ParseContents(lines[1..]);
      assert lines == [lines[0]] + lines[1..];
      forall l | l in lines && !IsComment(l) ensures TrimSpace(l) in Parse(lines) {
        if l != lines[0] {
          assert l in lines[1..];
        }
      }
      forall w | w in Parse(lines)
        ensures exists l :: l in lines && !IsComment(l) && w == TrimSpace(l)
      {
        if !IsComment(lines[0]) && w == TrimSpace(lines[0]) {
          assert lines[0] in lines;
        } else {
          assert w in Parse(lines[1..]);
          var l :| l in lines[1..] && !IsComment(l) && w == TrimSpace(l);
          assert l in lines;
        }
      }
    }
  }

  /** getWatchList, after the file has been read: split the text into lines
      and keep the trimmed non-comment ones in order. */
  method GetWatchList(data: string) returns (wl: seq<string>)
    ensures wl == Parse(Split(data))
  {
    var lines := Split(data);
    wl := [];
    var i := 0;
    while i < |lines|
      invariant 0 <= i <= |lines|
      invariant wl == Parse(lines[..i])
    {
      var line := lines[i];
      assert lines[..i + 1] == lines[..i] + [line];
      ParseAppend(lines[..i], [line]);
      if !IsComment(line) {
        wl := wl + [TrimSpace(line)];
      }
      i := i + 1;
    }
    assert lines[..i] == lines;
  }

  /** Joining one more line adds a newline and that line. */
  lemma {:induction false} JoinSnoc(lines: seq<string>, l: string)
    requires |lines| >= 1
    ensures Join(lines + [l]) == Join(lines) + "\n" + l
  {
    if |lines| > 1 {
      assert (lines + [l])[1..] == lines[1..] + [l];
      JoinSnoc(lines[1..], l);
    }
  }

  /** A text ending in a newline splits into the lines of the text before it
      and one more, empty, line. */
  lemma SplitTrailingNewline(s: string)
    ensures Split(s + "\n") == Split(s) + [""]
  {
    var lines := Split(s) + [""];
    JoinSnoc(Split(s), "");
    JoinSplit(s);
    assert Join(lines) == s + "\n";
    SplitJoin(lines);
  }

  /** A watchlist file that ends in a newline always watches the blank
      mount "". */
  lemma BlankLineWatched(s: string)
    ensures "" in Parse(Split(s + "\n"))
  {
    SplitTrailingNewline(s);
    var lines := Split(s + "\n");
    assert lines[|lines| - 1] == "";
    ParseContents(lines);
    assert TrimSpace("") == "";
  }

  /** A `#` that is not the first character of its line does not make the
      line a comment: the line is watched, with the `#` after trimming. */
  lemma IndentedHashWatched(lines: seq<string>, i: nat)
    requires i < |lines| && |lines[i]| >= 2 && lines[i][0] == ' ' && lines[i][1] == '#'
    ensures TrimSpace(lines[i]) in Parse(lines)
    ensures |TrimSpace(lines[i])| > 0 && TrimSpace(lines[i])[0] == '#'
  {
    ParseContents(lines);
    TrimSpaceSlice(lines[i]);
    var l := lines[i];
    assert TrimLeft(l) == TrimLeft(l[1..]);
    assert TrimLeft(l[1..]) == l[1..];
  }
}
