/** The list of URLs read from the mod-list text: the file is read in text
    mode (universal newlines), split with `readlines`, and every line has its
    `\n` characters stripped from both ends. */
module Lines {
  import opened Text

  /** Universal-newline translation of a text-mode read: `\r\n` and a lone
      `\r` both become `\n`. */
  function Translate(t: string): (r: string)
    ensures forall i :: 0 <= i < |r| ==> r[i] != '\r'
    decreases |t|
  {
    if t == [] then []
    else if t[0] == '\r' then
      "\n" + Translate(if |t| > 1 && t[1] == '\n' then t[2..] else t[1..])
    else
      [t[0]] + Translate(t[1..])
  }

  /** Translation only rewrites line ends: every character other than `\r`
      and `\n` occurs as often after it as before. */
  lemma {:induction false} TranslateKeepsText(t: string, c: char)
    requires c != '\r' && c != '\n'
    ensures multiset(Translate(t))[c] == multiset(t)[c]
    decreases |t|
  {
    if t != [] {
      assert t == [t[0]] + t[1..];
      CountCons(t[0], t[1..], c);
      if t[0] == '\r' && |t| > 1 && t[1] == '\n' {
        var tail := t[1..];
        assert tail == [tail[0]] + t[2..];
        CountCons(tail[0], t[2..], c);
        TranslateKeepsText(t[2..], c);
        CountCons('\n', Translate(t[2..]), c);
      } else if t[0] == '\r' {
        TranslateKeepsText(t[1..], c);
        CountCons('\n', Translate(t[1..]), c);
      } else {
        TranslateKeepsText(t[1..], c);
        CountCons(t[0], Translate(t[1..]), c);
      }
    }
  }

  /** Translation works piece by piece, keeping order: a text cut anywhere
      except between a `\r` and what follows it translates as its two parts. */
  lemma {:induction false} TranslateAppend(a: string, b: string)
    requires a == [] || a[|a| - 1] != '\r'
    ensures Translate(a + b) == Translate(a) + Translate(b)
    decreases |a|
  {
    if a == [] {
      assert a + b == b;
    } else {
      var n := if a[0] == '\r' && a[1] == '\n' then 2 else 1;
      var head, tail := a[..n], a[n..];
      assert tail == [] || tail[|tail| - 1] == a[|a| - 1];
      TranslateAppend(tail, b);
      assert a == head + tail;
      AppendAssoc(head, tail, b);
      if n == 2 {
        assert head == "\r\n";
        CrLfStep(tail, b);
      } else {
        assert head == [a[0]];
        CharStep(a[0], tail, b);
      }
    }
  }

  /** `TranslateAppend`'s step past a leading `\r\n`. */
  lemma CrLfStep(tail: string, b: string)
    requires Translate(tail + b) == Translate(tail) + Translate(b)
    ensures Translate("\r\n" + (tail + b)) == Translate("\r\n" + tail) + Translate(b)
  {
    TranslateLineEnds(tail, ' ');
    TranslateLineEnds(tail + b, ' ');
    AppendAssoc("\n", Translate(tail), Translate(b));
  }

  /** `TranslateAppend`'s step past a leading character or lone `\r`. */
  lemma CharStep(c: char, tail: string, b: string)
    requires c == '\r' ==> tail != [] && tail[0] != '\n'
    requires Translate(tail + b) == Translate(tail) + Translate(b)
    ensures Translate([c] + (tail + b)) == Translate([c] + tail) + Translate(b)
  {
    TranslateLineEnds(tail, c);
    TranslateLineEnds(tail + b, c);
    var h := if c == '\r' then "\n" else [c];
    AppendAssoc(h, Translate(tail), Translate(b));
  }

  /** The line ends: `\r\n` becomes one `\n`, a `\r` not followed by `\n`
      becomes one `\n`, and any other character reads as itself. With
      `TranslateAppend` this fixes the translation of every text. */
  lemma TranslateLineEnds(b: string, c: char)
    ensures Translate("\r\n" + b) == "\n" + Translate(b)
    ensures (b == [] || b[0] != '\n') ==> Translate("\r" + b) == "\n" + Translate(b)
    ensures c != '\r' ==> Translate([c] + b) == [c] + Translate(b)
  {
    var t := "\r\n" + b;
    assert t[0] == '\r' && t[1] == '\n' && t[2..] == b;
    var u := "\r" + b;
    assert u[0] == '\r' && u[1..] == b;
    var v := [c] + b;
    assert v[0] == c && v[1..] == b;
  }

  /** A text without `\r` is read unchanged. */
  lemma {:induction false} TranslatePlain(t: string)
    requires forall i :: 0 <= i < |t| ==> t[i] != '\r'
    ensures Translate(t) == t
    decreases |t|
  {
    if t != [] {
      assert t == [t[0]] + t[1..];
      TranslatePlain(t[1..]);
    }
  }

  /** The lines joined back together. */
  function Concat(ls: seq<string>): string
  {
    if ls == [] then [] else ls[0] + Concat(ls[1..])
  }

  /** `readlines`: `t` cut after every `\n`. Lines are never empty, only the
      last one may lack its `\n`, and no line holds a `\n` anywhere else. */
  function ReadLines(t: string): (ls: seq<string>)
    ensures Concat(ls) == t
    ensures forall k :: 0 <= k < |ls| ==> ls[k] != []
    ensures forall k :: 0 <= k < |ls| ==> forall i :: 0 <= i < |ls[k]| - 1 ==> ls[k][i] != '\n'
    ensures forall k :: 0 <= k < |ls| - 1 ==> ls[k][|ls[k]| - 1] == '\n'
    decreases |t|
  {
    if t == [] then []
    else
      var line := TakeUntil(t, {'\n'});
      if |line| == |t| then
        assert Concat([t]) == t + Concat([]);
        [t]
      else
        var rest := t[|line| + 1..];
        assert t == (line + "\n") + rest;
        ConsLine(line, ReadLines(rest));
        [line + "\n"] + ReadLines(rest)
  }

  /** A line without `\n`, terminated, in front of well-cut lines. */
  lemma ConsLine(line: string, tail: seq<string>)
    requires forall i :: 0 <= i < |line| ==> line[i] != '\n'
    requires forall k :: 0 <= k < |tail| ==> tail[k] != []
    requires forall k :: 0 <= k < |tail| ==> forall i :: 0 <= i < |tail[k]| - 1 ==> tail[k][i] != '\n'
    requires forall k :: 0 <= k < |tail| - 1 ==> tail[k][|tail[k]| - 1] == '\n'
    ensures var ls := [line + "\n"] + tail;
      && Concat(ls) == (line + "\n") + Concat(tail)
      && (forall k :: 0 <= k < |ls| ==> ls[k] != [])
      && (forall k :: 0 <= k < |ls| ==> forall i :: 0 <= i < |ls[k]| - 1 ==> ls[k][i] != '\n')
      && (forall k :: 0 <= k < |ls| - 1 ==> ls[k][|ls[k]| - 1] == '\n')
  {
    var ls := [line + "\n"] + tail;
    assert ls[1..] == tail;
    forall k | 1 <= k < |ls| ensures ls[k] == tail[k - 1] { }
  }

  /** `str.strip('\n')`. */
  function StripNewlines(s: string): string
  {
    TrimEnd(TrimStart(s, {'\n'}), {'\n'})
  }

  function StripAll(ls: seq<string>): (r: seq<string>)
    ensures |r| == |ls|
  {
    if ls == [] then [] else [StripNewlines(ls[0])] + StripAll(ls[1..])
  }

  /** The URLs of the mod list, one per line, in file order. A blank line
      gives the empty string. */
  function UrlLines(text: string): (urls: seq<string>)
    ensures var ls := ReadLines(Translate(text));
      && |urls| == |ls|
      && (forall k :: 0 <= k < |urls| ==> ls[k] == urls[k] || ls[k] == urls[k] + "\n")
    ensures forall k :: 0 <= k < |urls| ==> '\n' !in urls[k]
  {
    var ls := ReadLines(Translate(text));
    StripNoNewline(ls);
    StripKeepsLine(ls);
    StripAll(ls)
  }

  /** Stripping takes at most the final `\n` off each line `readlines` gives. */
  lemma StripKeepsLine(ls: seq<string>)
    requires forall k :: 0 <= k < |ls| ==> ls[k] != []
    requires forall k :: 0 <= k < |ls| ==> forall i :: 0 <= i < |ls[k]| - 1 ==> ls[k][i] != '\n'
    ensures forall k :: 0 <= k < |ls| ==> ls[k] == StripAll(ls)[k] || ls[k] == StripAll(ls)[k] + "\n"
  {
    forall k | 0 <= k < |ls| ensures ls[k] == StripAll(ls)[k] || ls[k] == StripAll(ls)[k] + "\n" {
      StripAllAt(ls, k);
      StrippedLineKept(ls[k]);
    }
  }

  lemma StrippedLineKept(line: string)
    requires line != []
    requires forall i :: 0 <= i < |line| - 1 ==> line[i] != '\n'
    ensures line == StripNewlines(line) + (if line[|line| - 1] == '\n' then "\n" else "")
  {
    StripLine(line);
    var init := line[..|line| - 1];
    assert line == init + [line[|line| - 1]];
  }


  /** The URLs written back one per line, each followed by `\n`. */
  function UnLines(urls: seq<string>): string
  {
    if urls == [] then [] else urls[0] + "\n" + UnLines(urls[1..])
  }

  /** On a line `readlines` produces, stripping removes exactly its final `\n`. */
  lemma StripLine(line: string)
    requires line != []
    requires forall i :: 0 <= i < |line| - 1 ==> line[i] != '\n'
    ensures StripNewlines(line) == if line[|line| - 1] == '\n' then line[..|line| - 1] else line
  {
    if |line| > 1 {
      assert TrimStart(line, {'\n'}) == line;
      if line[|line| - 1] == '\n' {
        var init := line[..|line| - 1];
        assert init[|init| - 1] != '\n';
        assert TrimEnd(init, {'\n'}) == init;
      }
    } else if line[0] == '\n' {
      assert TrimStart(line, {'\n'}) == TrimStart([], {'\n'});
    }
  }

  /** One step of `readlines` followed by stripping: the first line comes
      out without its `\n`, the rest is the list of the remaining text. */
  lemma StripReadLinesStep(t: string, line: string)
    requires line == TakeUntil(t, {'\n'}) && |line| < |t|
    ensures StripAll(ReadLines(t)) == [line] + StripAll(ReadLines(t[|line| + 1..]))
  {
    var rest := t[|line| + 1..];
    assert ReadLines(t) == [line + "\n"] + ReadLines(rest);
    StripLine(line + "\n");
    assert (line + "\n")[..|line|] == line;
    assert ([line + "\n"] + ReadLines(rest))[1..] == ReadLines(rest);
  }

  /** A text without `\n` is one line, written back with a `\n` added. */
  lemma LastLineRoundTrip(t: string)
    requires t != [] && forall i :: 0 <= i < |t| ==> t[i] != '\n'
    ensures UnLines(StripAll(ReadLines(t))) == t + "\n"
  {
    assert ReadLines(t) == [t] by {
      TakeUntilAll(t, {'\n'});
    }
    assert StripAll([t]) == [t] by {
      StripLine(t);
      assert StripAll([t]) == [StripNewlines(t)] + StripAll([]);
    }
    assert UnLines([t]) == t + "\n" by {
      assert UnLines([t]) == t + "\n" + UnLines([]);
    }
  }


  /** The URL list determines the translated text: written back one per line
      it gives that text, plus a final `\n` when the text did not end with one. */
  lemma {:induction false} LinesRoundTrip(t: string)
    ensures UnLines(StripAll(ReadLines(t))) == if t == [] || t[|t| - 1] == '\n' then t else t + "\n"
    decreases |t|
  {
    if t != [] {
      var line := TakeUntil(t, {'\n'});
      if |line| == |t| {
        LastLineRoundTrip(t);
      } else {
        var rest := t[|line| + 1..];
        StripReadLinesStep(t, line);
        LinesRoundTrip(rest);
        assert t == (line + "\n") + rest;
        UnLinesCons(line, rest, StripAll(ReadLines(rest)));
      }
    }
  }

  /** Writing back one more line in front of a list that already writes
      back `rest`. */
  lemma UnLinesCons(line: string, rest: string, tail: seq<string>)
    requires UnLines(tail) == if rest == [] || rest[|rest| - 1] == '\n' then rest else rest + "\n"
    ensures var t := (line + "\n") + rest;
      UnLines([line] + tail) == if t[|t| - 1] == '\n' then t else t + "\n"
  {
    var t := (line + "\n") + rest;
    assert ([line] + tail)[1..] == tail;
    assert UnLines([line] + tail) == line + "\n" + UnLines(tail);
    if rest != [] {
      assert t[|t| - 1] == rest[|rest| - 1];
    }
  }

  /** No URL of the list holds a newline, and the list written back one per
      line gives the file's text after newline translation (with a final
      `\n` supplied when the file lacked one). */
  lemma UrlLinesRoundTrip(text: string)
    ensures forall k :: 0 <= k < |UrlLines(text)| ==> '\n' !in UrlLines(text)[k]
    ensures var t := Translate(text);
      UnLines(UrlLines(text)) == if t == [] || t[|t| - 1] == '\n' then t else t + "\n"
  {
    var t := Translate(text);
    var ls := ReadLines(t);
    LinesRoundTrip(t);
    StripNoNewline(ls);
    assert UrlLines(text) == StripAll(ls);
  }

  lemma StripNoNewline(ls: seq<string>)
    requires forall k :: 0 <= k < |ls| ==> ls[k] != []
    requires forall k :: 0 <= k < |ls| ==> forall i :: 0 <= i < |ls[k]| - 1 ==> ls[k][i] != '\n'
    ensures forall k :: 0 <= k < |ls| ==> '\n' !in StripAll(ls)[k]
  {
    forall k | 0 <= k < |ls| ensures '\n' !in StripAll(ls)[k] {
      StripAllAt(ls, k);
      StrippedLineClean(ls[k]);
    }
  }

  lemma {:induction false} StripAllAt(ls: seq<string>, k: nat)
    requires k < |ls|
    ensures StripAll(ls)[k] == StripNewlines(ls[k])
    decreases k
  {
    if k > 0 {
      StripAllAt(ls[1..], k - 1);
    }
  }

  /** A line as `readlines` cuts it holds no `\n` once stripped. */
  lemma StrippedLineClean(line: string)
    requires line != []
    requires forall i :: 0 <= i < |line| - 1 ==> line[i] != '\n'
    ensures '\n' !in StripNewlines(line)
  {
    StripLine(line);
    var r := StripNewlines(line);
    forall i | 0 <= i < |r| ensures r[i] != '\n' {
      assert r[i] == line[i];
    }
  }
}
