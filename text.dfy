/** The string operations the input validators rely on: str.strip(),
    str.split() without a separator, str.isdigit() and int() on a token. */
module Text {
  import opened Results

  /** The ASCII characters Python treats as whitespace: space, tab, line
      feed, vertical tab, form feed, carriage return, and the four
      separators 0x1C to 0x1F. */
  predicate IsSpace(ch: char) {
    ch == ' ' || ch == '\t' || ch == '\n' || ch == '\U{0B}' || ch == '\U{0C}' || ch == '\r'
    || ('\U{1C}' <= ch <= '\U{1F}')
  }

  predicate AllSpace(s: string) {
    forall i | 0 <= i < |s| :: IsSpace(s[i])
  }

  predicate NoSpace(s: string) {
    forall i | 0 <= i < |s| :: !IsSpace(s[i])
  }

  /** Neither the first nor the last character is whitespace. */
  predicate IsStripped(s: string) {
    s == [] || (!IsSpace(s[0]) && !IsSpace(s[|s| - 1]))
  }

  /** Drops the leading whitespace: the result is the longest suffix of s
      that does not start with whitespace. */
  function TrimLeft(s: string): (r: string)
    ensures |r| <= |s| && r == s[|s| - |r|..]
    ensures forall i | 0 <= i < |s| - |r| :: IsSpace(s[i])
    ensures r != [] ==> !IsSpace(r[0])
  {
    if s != [] && IsSpace(s[0]) then TrimLeft(s[1..]) else s
  }

  /** Drops the trailing whitespace: the result is the longest prefix of s
      that does not end with whitespace. */
  function TrimRight(s: string): (r: string)
    ensures |r| <= |s| && r == s[..|r|]
    ensures forall i | |r| <= i < |s| :: IsSpace(s[i])
    ensures r != [] ==> !IsSpace(r[|r| - 1])
  {
    if s != [] && IsSpace(s[|s| - 1]) then TrimRight(s[..|s| - 1]) else s
  }

  /** str.strip(): the slice of s left once the whitespace at both ends is
      cut away. */
  function Strip(s: string): (r: string)
    ensures IsStripped(r)
    ensures exists i, j | 0 <= i <= j <= |s| ::
      r == s[i..j] && AllSpace(s[..i]) && AllSpace(s[j..])
  {
    var t := TrimLeft(s);
    var r := TrimRight(t);
    var i := |s| - |t|;
    assert r == s[i..i + |r|] && AllSpace(s[..i]) && AllSpace(s[i + |r|..]);
    r
  }

  /** Stripping a string without surrounding whitespace changes nothing, so
      stripping twice is stripping once. */
  lemma StripStripped(s: string)
    ensures IsStripped(s) ==> Strip(s) == s
    ensures Strip(Strip(s)) == Strip(s)
  {
  }

  /** The words of s after the word in progress `word`: maximal runs of
      non-whitespace characters, as str.split() without a separator. */
  function SplitFrom(s: string, word: string): (ws: seq<string>)
    requires NoSpace(word)
    ensures forall i | 0 <= i < |ws| :: ws[i] != [] && NoSpace(ws[i])
  {
    if s == [] then
      (if word == [] then [] else [word])
    else if IsSpace(s[0]) then
      (if word == [] then [] else [word]) + SplitFrom(s[1..], [])
    else
      SplitFrom(s[1..], word + [s[0]])
  }

  /** seps[0] + ws[0] + seps[1] + ... + ws[n - 1] + seps[n]: the words ws
      with the separators seps around and between them. */
  function Interleave(ws: seq<string>, seps: seq<string>): string
    requires |seps| == |ws| + 1
    decreases |ws|
  {
    if ws == [] then seps[0] else seps[0] + (ws[0] + Interleave(ws[1..], seps[1..]))
  }

  /** The layout of a line as words and separators: the words are non-empty
      and hold no whitespace, the separators are all whitespace, and the
      ones between two words are not empty. */
  predicate Spaced(ws: seq<string>, seps: seq<string>) {
    && |seps| == |ws| + 1
    && (forall i | 0 <= i < |ws| :: ws[i] != [] && NoSpace(ws[i]))
    && (forall i | 0 <= i < |seps| :: AllSpace(seps[i]))
    && (forall i | 0 < i < |ws| :: seps[i] != [])
  }

  /** A whitespace character in front of a layout joins its first
      separator. */
  lemma {:induction false} InterleaveConsSpace(ch: char, ws: seq<string>, seps: seq<string>)
    requires |seps| == |ws| + 1
    ensures Interleave(ws, [[ch] + seps[0]] + seps[1..]) == [ch] + Interleave(ws, seps)
  {
    var moved := [[ch] + seps[0]] + seps[1..];
    if ws != [] {
      assert moved[1..] == seps[1..];
      var tail := ws[0] + Interleave(ws[1..], seps[1..]);
      assert Interleave(ws, moved) == ([ch] + seps[0]) + tail;
      assert ([ch] + seps[0]) + tail == [ch] + (seps[0] + tail);
    }
  }

  /** Separators that lay word + s out as the words SplitFrom returns; the
      first one is empty while a word is in progress. */
  lemma {:induction false} SplitFromLayout(s: string, word: string) returns (seps: seq<string>)
    requires NoSpace(word)
    ensures Spaced(SplitFrom(s, word), seps)
    ensures word + s == Interleave(SplitFrom(s, word), seps)
    ensures word != [] ==> seps[0] == []
    decreases |s|
  {
    var ws := SplitFrom(s, word);
    if s == [] {
      if word == [] {
        seps := [[]];
      } else {
        seps := [[], []];
        assert ws == [word] && Interleave(ws[1..], seps[1..]) == [];
      }
    } else if IsSpace(s[0]) {
      seps := SpaceLayout(s, word);
    } else {
      seps := SplitFromLayout(s[1..], word + [s[0]]);
      assert word + s == word + [s[0]] + s[1..];
    }
  }

  /** The case of SplitFromLayout where s starts with whitespace. */
  lemma {:induction false} SpaceLayout(s: string, word: string) returns (seps: seq<string>)
    requires NoSpace(word) && s != [] && IsSpace(s[0])
    ensures Spaced(SplitFrom(s, word), seps)
    ensures word + s == Interleave(SplitFrom(s, word), seps)
    ensures word != [] ==> seps[0] == []
    decreases |s|, 0
  {
    var ws := SplitFrom(s, word);
    var rest := SplitFrom(s[1..], []);
    var inner := SplitFromLayout(s[1..], []);
    var moved := [[s[0]] + inner[0]] + inner[1..];
    InterleaveConsSpace(s[0], rest, inner);
    assert s == [s[0]] + s[1..];
    assert AllSpace([s[0]] + inner[0]);
    if word == [] {
      seps := moved;
      assert ws == rest;
    } else {
      seps := [[]] + moved;
      assert ws == [word] + rest;
      assert ws[1..] == rest && seps[1..] == moved;
    }
  }

  /** str.split() without a separator: the words of s, which is laid out as
      these words with whitespace around and between them. */
  function Split(s: string): (ws: seq<string>)
    ensures forall i | 0 <= i < |ws| :: ws[i] != [] && NoSpace(ws[i])
  {
    SplitFrom(s, [])
  }

  /** The words joined by single spaces. */
  function Join(ws: seq<string>): string {
    if ws == [] then [] else if |ws| == 1 then ws[0] else ws[0] + " " + Join(ws[1..])
  }

  /** Reading a run of non-whitespace adds it to the word in progress. */
  lemma {:induction false} SplitFromWord(w: string, rest: string, word: string)
    requires NoSpace(w) && NoSpace(word)
    ensures SplitFrom(w + rest, word) == SplitFrom(rest, word + w)
    decreases |w|
  {
    if w == [] {
      assert w + rest == rest;
      assert word + w == word;
    } else {
      assert (w + rest)[1..] == w[1..] + rest;
      SplitFromWord(w[1..], rest, word + [w[0]]);
      assert word + [w[0]] + w[1..] == word + w;
    }
  }

  /** Splitting words joined by spaces gives the words back. */
  lemma {:induction false} SplitJoin(ws: seq<string>)
    requires forall i | 0 <= i < |ws| :: ws[i] != [] && NoSpace(ws[i])
    ensures Split(Join(ws)) == ws
  {
    if |ws| == 1 {
      SplitFromWord(ws[0], [], []);
      assert ws[0] + [] == ws[0];
    } else if |ws| > 1 {
      SplitJoin(ws[1..]);
      var tail := " " + Join(ws[1..]);
      assert ws[0] + " " + Join(ws[1..]) == ws[0] + tail;
      SplitFromWord(ws[0], tail, []);
      assert tail[1..] == Join(ws[1..]);
      assert [] + ws[0] == ws[0];
      assert ws == [ws[0]] + ws[1..];
    }
  }

  /** Leading whitespace adds no word. */
  lemma {:induction false} SkipSpace(sp: string, rest: string)
    requires AllSpace(sp)
    ensures SplitFrom(sp + rest, []) == SplitFrom(rest, [])
    decreases |sp|
  {
    if sp != [] {
      var line := sp + rest;
      assert IsSpace(line[0]) && line[1..] == sp[1..] + rest;
      assert SplitFrom(line, []) == [] + SplitFrom(line[1..], []);
      SkipSpace(sp[1..], rest);
    } else {
      assert sp + rest == rest;
    }
  }

  /** Whitespace after a word in progress ends that word. */
  lemma {:induction false} EndWord(sp: string, rest: string, word: string)
    requires AllSpace(sp) && sp != [] && word != [] && NoSpace(word)
    ensures SplitFrom(sp + rest, word) == [word] + SplitFrom(rest, [])
  {
    assert (sp + rest)[1..] == sp[1..] + rest;
    SkipSpace(sp[1..], rest);
  }

  /** Splitting a line laid out as words and whitespace separators gives the
      words back, whatever the separators. */
  lemma {:induction false} SplitInterleave(ws: seq<string>, seps: seq<string>)
    requires Spaced(ws, seps)
    ensures Split(Interleave(ws, seps)) == ws
    decreases |ws|
  {
    if ws == [] {
      SkipSpace(seps[0], []);
      assert seps[0] + [] == seps[0];
    } else {
      var tail := Interleave(ws[1..], seps[1..]);
      SkipSpace(seps[0], ws[0] + tail);
      SplitFromWord(ws[0], tail, []);
      assert [] + ws[0] == ws[0];
      if |ws| == 1 {
        if seps[1] != [] {
          EndWord(seps[1], [], ws[0]);
          assert seps[1] + [] == seps[1];
        }
      } else {
        var ws', seps' := ws[1..], [[]] + seps[2..];
        var next := ws[1] + Interleave(ws[2..], seps[2..]);
        assert ws'[1..] == ws[2..] && seps'[1..] == seps[2..];
        assert Interleave(ws', seps') == next;
        assert Spaced(ws', seps');
        SplitInterleave(ws', seps');
        EndWord(seps[1], next, ws[0]);
        assert ws == [ws[0]] + ws';
      }
    }
  }

  /** Every line is laid out as the words Split returns, with whitespace
      around and between them; with SplitInterleave, these are the only
      words for which this holds. */
  lemma {:induction false} SplitLayout(s: string)
    ensures exists seps :: Spaced(Split(s), seps) && s == Interleave(Split(s), seps)
  {
    var seps := SplitFromLayout(s, []);
    assert [] + s == s;
    assert Spaced(Split(s), seps) && s == Interleave(Split(s), seps);
  }

  predicate IsDigit(ch: char) {
    '0' <= ch <= '9'
  }

  function DigitValue(ch: char): (d: nat)
    requires IsDigit(ch)
    ensures d < 10
  {
    ch as int - '0' as int
  }

  /** str.isdigit(): a non-empty string of digits, which is therefore a
      single word. */
  predicate IsDigits(s: string): (digits: bool)
    ensures digits ==> s != [] && NoSpace(s)
  {
    s != [] && forall i | 0 <= i < |s| :: IsDigit(s[i])
  }

  /** The value of a string of decimal digits. */
  function DigitsValue(s: string): nat
    requires forall i | 0 <= i < |s| :: IsDigit(s[i])
  {
    if s == [] then 0 else DigitsValue(s[..|s| - 1]) * 10 + DigitValue(s[|s| - 1])
  }

  /** int() on one token: an optional sign followed by decimal digits. A
      token that converts is a single word, and only a leading minus sign
      gives a negative value. */
  function ParseInt(t: string): (r: Option<int>)
    ensures r.Some? ==> t != [] && NoSpace(t)
    ensures r.Some? && r.value < 0 ==> t[0] == '-'
  {
    if |t| > 0 && (t[0] == '+' || t[0] == '-') then
      if IsDigits(t[1..]) then
        var v: int := DigitsValue(t[1..]);
        Some(if t[0] == '-' then -v else v)
      else None
    else if IsDigits(t) then Some(DigitsValue(t))
    else None
  }

  /** The decimal digits of n, without leading zeros. */
  function ShowNat(n: nat): (s: string)
    ensures IsDigits(s)
  {
    var d := ['0' + (n % 10) as char];
    if n < 10 then d else ShowNat(n / 10) + d
  }

  /** The decimal form of n, with a minus sign when n is negative. */
  function ShowInt(n: int): string {
    if n < 0 then "-" + ShowNat(-n) else ShowNat(n)
  }

  lemma {:induction false} DigitsValueShowNat(n: nat)
    ensures DigitsValue(ShowNat(n)) == n
  {
    var s := ShowNat(n);
    if n >= 10 {
      DigitsValueShowNat(n / 10);
      assert s[..|s| - 1] == ShowNat(n / 10);
    }
  }

  /** Reading back the decimal form of any integer gives that integer. */
  lemma ParseShowInt(n: int)
    ensures ParseInt(ShowInt(n)) == Some(n)
  {
    if n < 0 {
      DigitsValueShowNat(-n);
      assert ShowInt(n)[1..] == ShowNat(-n);
    } else {
      DigitsValueShowNat(n);
    }
  }
}
