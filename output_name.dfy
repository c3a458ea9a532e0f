/**
  The output-file naming of the interactive driver in convert.py: removing one
  pair of quotes around a pasted path, naming the output `<stem>_compressed`
  when the operator gives no name, and adding `.mp3` unless the name already
  ends with it in any letter case.
*/
module OutputName {

  /** `s` starts and ends with the quote character `q` (a lone `q` counts). */
  predicate Enclosed(s: string, q: char) {
    |s| >= 1 && s[0] == q && s[|s| - 1] == q
  }

  predicate IsQuote(q: char) {
    q == '"' || q == '\''
  }

  /**
    Removes the first and last character when both are `"` or both are `'`;
    as with a Python slice `[1:-1]`, a lone quote becomes empty.
  */
  function StripQuotes(s: string): (r: string)
    ensures |r| <= |s|
    ensures (Enclosed(s, '"') || Enclosed(s, '\'')) ==> |r| == Max0(|s| - 2)
    ensures |s| >= 2 && (Enclosed(s, '"') || Enclosed(s, '\'')) ==> [s[0]] + r + [s[|s| - 1]] == s
    ensures !(Enclosed(s, '"') || Enclosed(s, '\'')) ==> r == s
  {
    if Enclosed(s, '"') || Enclosed(s, '\'') then
      (if |s| == 1 then "" else s[1..|s| - 1])
    else
      s
  }

  function Max0(n: int): nat { if n < 0 then 0 else n }

  /** Quoting a path and stripping it gives the path back. */
  lemma StripQuotesRoundTrip(q: char, s: string)
    requires IsQuote(q)
    ensures StripQuotes([q] + s + [q]) == s
  {
    var t := [q] + s + [q];
    assert Enclosed(t, q);
    assert t[1..|t| - 1] == s;
  }

  /** Only one pair is removed: a doubly quoted path keeps its inner quotes. */
  lemma StripQuotesOnce(q: char, s: string)
    requires IsQuote(q)
    ensures StripQuotes([q, q] + s + [q, q]) == [q] + s + [q]
  {
    assert [q, q] + s + [q, q] == [q] + ([q] + s + [q]) + [q];
    StripQuotesRoundTrip(q, [q] + s + [q]);
  }

  /** Python's `str.lower`, restricted to the letters A to Z. */
  function LowerChar(c: char): char {
    if 'A' <= c <= 'Z' then (c as int + 32) as char else c
  }

  function Lower(s: string): (r: string)
    ensures |r| == |s|
    ensures forall i :: 0 <= i < |s| ==> r[i] == LowerChar(s[i])
  {
    seq(|s|, i requires 0 <= i < |s| => LowerChar(s[i]))
  }

  lemma LowerAppend(a: string, b: string)
    ensures Lower(a + b) == Lower(a) + Lower(b)
  {
    assert forall i :: 0 <= i < |a + b| ==> Lower(a + b)[i] == (Lower(a) + Lower(b))[i];
  }

  predicate EndsWith(s: string, suffix: string) {
    |s| >= |suffix| && s[|s| - |suffix|..] == suffix
  }

  const Mp3 := ".mp3"

  /** `name.lower().endswith('.mp3')`. */
  predicate HasMp3Suffix(name: string) {
    EndsWith(Lower(name), Mp3)
  }

  /**
    Appends `.mp3` unless the name already ends with it in any letter case.
    The result always has the suffix and extends the name by at most `.mp3`.
  */
  function EnsureMp3(name: string): (r: string)
    ensures HasMp3Suffix(r)
    ensures r == name || r == name + Mp3
    ensures r == name <==> HasMp3Suffix(name)
  {
    if HasMp3Suffix(name) then name
    else
      LowerAppend(name, Mp3);
      assert Lower(Mp3) == Mp3;
      name + Mp3
  }

  /** Applying the suffix rule twice appends `.mp3` no more than once. */
  lemma EnsureMp3Idempotent(name: string)
    ensures EnsureMp3(EnsureMp3(name)) == EnsureMp3(name)
  {
  }

  /** The default stem given to the output when the operator enters no name. */
  function DefaultStem(stem: string): string {
    stem + "_compressed"
  }

  /**
    The output file name from what the operator typed and the stem of the
    input file's base name.
  */
  function OutputFileName(typed: string, stem: string): (r: string)
    ensures HasMp3Suffix(r)
  {
    EnsureMp3(if typed == "" then DefaultStem(stem) else typed)
  }

  /** With no name typed, the output is `<stem>_compressed.mp3`. */
  lemma DefaultOutputFileName(stem: string)
    ensures OutputFileName("", stem) == stem + "_compressed.mp3"
  {
    var d := DefaultStem(stem);
    var l := Lower(d);
    assert l[|l| - 1] == LowerChar('d') == 'd';
    assert !HasMp3Suffix(d);
    assert d + Mp3 == stem + "_compressed.mp3";
  }

  /** A typed name is kept as typed when it already ends with `.mp3` in any case. */
  lemma TypedMp3Kept(typed: string, stem: string)
    requires typed != "" && HasMp3Suffix(typed)
    ensures OutputFileName(typed, stem) == typed
  {
  }

  /** A typed name without the suffix gets `.mp3` appended. */
  lemma TypedNameGetsMp3(typed: string, stem: string)
    requires typed != "" && !HasMp3Suffix(typed)
    ensures OutputFileName(typed, stem) == typed + Mp3
  {
  }

  /** For example, `Song.MP3` is left alone and `Song` becomes `Song.mp3`. */
  lemma SuffixExamples()
    ensures EnsureMp3("Song.MP3") == "Song.MP3"
    ensures EnsureMp3("Song") == "Song.mp3"
  {
    var upper := "Song.MP3";
    var l := Lower(upper);
    assert l[4] == LowerChar('.') == '.';
    assert l[5] == LowerChar('M') == 'm';
    assert l[6] == LowerChar('P') == 'p';
    assert l[7] == LowerChar('3') == '3';
    assert l[4..] == Mp3;
    assert Lower("Song")[3] == LowerChar('g') == 'g';
  }
}
