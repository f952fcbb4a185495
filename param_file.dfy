/** The normalisation-parameter file written by `saveParams`: a line of the
    column means, then a line of the column standard deviations, each value's
    text followed by a space, or by a newline after the last column. How a
    double becomes text is the stream's business; here it is the parameter
    `render`. */
module ParamFile {

  datatype Option<T> = None | Some(value: T)

  /** Tokens separated by single spaces. */
  function Joined(toks: seq<string>): string
  {
    if |toks| == 0 then ""
    else if |toks| == 1 then toks[0]
    else Joined(toks[..|toks| - 1]) + " " + toks[|toks| - 1]
  }

  /** One line of the file: the tokens, then a newline; no line at all when
      there are no tokens. */
  function Line(toks: seq<string>): string
  {
    if |toks| == 0 then "" else Joined(toks) + "\n"
  }

  /** The text of each value, in column order. */
  function Tokens(vals: seq<real>, render: real -> string): seq<string>
  {
    seq(|vals|, k requires 0 <= k < |vals| => render(vals[k]))
  }

  /** The whole file: means first, then as many standard deviations. */
  function ParamText(mean: seq<real>, standard: seq<real>, render: real -> string): string
    requires |standard| >= |mean|
  {
    Line(Tokens(mean, render)) + Line(Tokens(standard[..|mean|], render))
  }

  /** Streams the two lines exactly as `saveParams` does: for row 0 the means,
      for row 1 the standard deviations, each value followed by "\n" when it
      is the last column and by " " otherwise. */
  method SaveParams(mean: seq<real>, standard: seq<real>, render: real -> string)
    returns (text: string)
    requires |standard| >= |mean|
    ensures text == ParamText(mean, standard, render)
    ensures |mean| == 0 ==> text == ""
  {
    ghost var rows := [Tokens(mean, render), Tokens(standard[..|mean|], render)];
    text := "";
    var i := 0;
    while i < 2
      invariant 0 <= i <= 2
      invariant text == if i == 0 then "" else if i == 1 then Line(rows[0]) else Line(rows[0]) + Line(rows[1])
    {
      ghost var before := text;
      ghost var toks := rows[i];
      var j := 0;
      while j < |mean|
        invariant 0 <= j <= |mean|
        invariant text == if j == 0 then before
                          else before + Joined(toks[..j]) + (if j == |mean| then "\n" else " ")
      {
        if i == 0 {
          text := text + render(mean[j]);
        } else {
          text := text + render(standard[j]);
        }
        if j == |mean| - 1 {
          text := text + "\n";
        } else {
          text := text + " ";
        }
        assert toks[..j + 1][..j] == toks[..j];
        j := j + 1;
      }
      assert toks[..|mean|] == toks;
      i := i + 1;
    }
  }

  /** Pieces of `s` between occurrences of `sep`, the first of them prefixed
      by `cur`; the empty text is one empty piece. */
  function SplitFrom(s: string, sep: char, cur: string): (parts: seq<string>)
    decreases |s|
  {
    if |s| == 0 then [cur]
    else if s[0] == sep then [cur] + SplitFrom(s[1..], sep, "")
    else SplitFrom(s[1..], sep, cur + [s[0]])
  }

  function Split(s: string, sep: char): seq<string>
  {
    SplitFrom(s, sep, "")
  }

  /** Text without the separator is a single piece. */
  lemma {:induction false} SplitNoSep(s: string, sep: char, cur: string)
    requires sep !in s
    ensures SplitFrom(s, sep, cur) == [cur + s]
    decreases |s|
  {
    if |s| > 0 {
      SplitNoSep(s[1..], sep, cur + [s[0]]);
      assert cur + [s[0]] + s[1..] == cur + s;
    } else {
      assert cur + s == cur;
    }
  }

  /** Splitting at a separator splits the pieces. */
  lemma {:induction false} SplitAt(a: string, sep: char, b: string, cur: string)
    ensures SplitFrom(a + [sep] + b, sep, cur) == SplitFrom(a, sep, cur) + Split(b, sep)
    decreases |a|
  {
    var whole := a + [sep] + b;
    if |a| == 0 {
      assert whole[0] == sep && whole[1..] == b;
    } else {
      assert whole[0] == a[0] && whole[1..] == a[1..] + [sep] + b;
      if a[0] == sep {
        SplitAt(a[1..], sep, b, "");
      } else {
        SplitAt(a[1..], sep, b, cur + [a[0]]);
      }
    }
  }

  /** A joined line contains a space only between tokens, and no character the
      tokens do not contain besides. */
  lemma {:induction false} JoinedChars(toks: seq<string>, ch: char)
    requires ch != ' '
    requires forall k :: 0 <= k < |toks| ==> ch !in toks[k]
    ensures ch !in Joined(toks)
    decreases |toks|
  {
    if |toks| > 1 {
      JoinedChars(toks[..|toks| - 1], ch);
    }
  }

  /** Splitting a joined line at spaces gives back its tokens, provided there is
      at least one and none contains a space. */
  lemma {:induction false} SplitJoined(toks: seq<string>)
    requires |toks| >= 1
    requires forall k :: 0 <= k < |toks| ==> ' ' !in toks[k]
    ensures Split(Joined(toks), ' ') == toks
    decreases |toks|
  {
    var last := toks[|toks| - 1];
    SplitNoSep(last, ' ', "");
    assert "" + last == last;
    if |toks| > 1 {
      var init := toks[..|toks| - 1];
      SplitJoined(init);
      SplitAt(Joined(init), ' ', last, "");
      assert Joined(toks) == Joined(init) + [' '] + last;
      assert init + [last] == toks;
    }
  }

  /** A reader for the file: exactly two newline-terminated lines, each split at spaces. */
  function ParseParams(text: string): Option<(seq<string>, seq<string>)>
  {
    var lines := Split(text, '\n');
    if |lines| == 3 && lines[2] == "" then Some((Split(lines[0], ' '), Split(lines[1], ' ')))
    else None
  }

  /** No value is written as text that holds a separator. */
  ghost predicate Separable(render: real -> string)
  {
    forall v :: ' ' !in render(v) && '\n' !in render(v)
  }

  lemma TokenSeparable(render: real -> string, v: real)
    requires Separable(render)
    ensures ' ' !in render(v) && '\n' !in render(v)
  {
  }

  /** With at least one column, the file reads back as two lines holding the
      means and then the standard deviations, one token per column, in order. */
  lemma ParamRoundTrip(mean: seq<real>, standard: seq<real>, render: real -> string)
    requires |standard| >= |mean| >= 1 && Separable(render)
    ensures ParseParams(ParamText(mean, standard, render))
         == Some((Tokens(mean, render), Tokens(standard[..|mean|], render)))
  {
    var m, s := Tokens(mean, render), Tokens(standard[..|mean|], render);
    forall k | 0 <= k < |m|
      ensures ' ' !in m[k] && '\n' !in m[k] && ' ' !in s[k] && '\n' !in s[k]
    {
      TokenSeparable(render, mean[k]);
      TokenSeparable(render, standard[k]);
    }
    JoinedChars(m, '\n');
    JoinedChars(s, '\n');
    SplitNoSep(Joined(m), '\n', "");
    SplitNoSep(Joined(s), '\n', "");
    assert "" + Joined(m) == Joined(m) && "" + Joined(s) == Joined(s);
    SplitAt(Joined(s), '\n', "", "");
    assert Joined(s) + "\n" == Joined(s) + ['\n'] + "";
    SplitAt(Joined(m), '\n', Joined(s) + "\n", "");
    assert ParamText(mean, standard, render) == Joined(m) + ['\n'] + (Joined(s) + "\n");
    SplitJoined(m);
    SplitJoined(s);
  }
}
