/** cmd/genschema/main.go: filterDumpLines, which takes psql noise out of a schema dump. */
module DumpFilter {
  import opened Batches

  // ---- lines and blanks, as Go's strings package has them ----

  function Split(text: string): (lines: seq<string>)
    ensures |lines| > 0
  {
    if text == "" then [""]
    else
      var rest := Split(text[1..]);
      if text[0] == '\n' then [""] + rest else [[text[0]] + rest[0]] + rest[1..]
  }

  function Join(lines: seq<string>): string {
    if |lines| == 0 then ""
    else if |lines| == 1 then lines[0]
    else lines[0] + "\n" + Join(lines[1..])
  }

  predicate OneLine(s: string) { '\n' !in s }

  lemma {:induction false} JoinInvertsSplit(text: string)
    ensures Join(Split(text)) == text
  {
    if text != "" {
      JoinInvertsSplit(text[1..]);
      var rest := Split(text[1..]);
      if text[0] == '\n' {
        assert ([""] + rest)[1..] == rest;
        assert "" + "\n" + Join(rest) == text;
      } else {
        var lines := [[text[0]] + rest[0]] + rest[1..];
        assert lines[1..] == rest[1..];
        if |rest| > 1 {
          assert [text[0]] + rest[0] + "\n" + Join(rest[1..]) == [text[0]] + (rest[0] + "\n" + Join(rest[1..]));
        }
        assert text == [text[0]] + text[1..];
      }
    }
  }

  lemma {:induction false} SplitIntoLines(text: string)
    ensures forall l | l in Split(text) :: OneLine(l)
  {
    if text != "" {
      SplitIntoLines(text[1..]);
      var rest := Split(text[1..]);
      assert rest[0] in rest;
      assert forall l | l in rest[1..] :: l in rest;
    }
  }

  /** A line and the text after its newline split apart again. */
  lemma {:induction false} SplitFirst(line: string, text: string)
    requires OneLine(line)
    ensures Split(line + "\n" + text) == [line] + Split(text)
    ensures Split(line) == [line]
  {
    if line == "" {
      assert line + "\n" + text == "\n" + text;
      assert ("\n" + text)[1..] == text;
    } else {
      SplitFirst(line[1..], text);
      var whole := line + "\n" + text;
      assert whole[1..] == line[1..] + "\n" + text;
      assert line == [line[0]] + line[1..];
      assert whole[0] == line[0];
    }
  }

  lemma {:induction false} SplitInvertsJoin(lines: seq<string>)
    requires lines != [] && forall l | l in lines :: OneLine(l)
    ensures Split(Join(lines)) == lines
  {
    if |lines| == 1 {
      SplitFirst(lines[0], "");
    } else {
      SplitInvertsJoin(lines[1..]);
      SplitFirst(lines[0], Join(lines[1..]));
    }
  }

  /** unicode.IsSpace */
  predicate IsSpace(c: char) {
    || '\t' <= c <= '\r' || c == ' ' || c == '\U{85}' || c == '\U{a0}' || c == '\U{1680}'
    || '\U{2000}' <= c <= '\U{200a}' || c == '\U{2028}' || c == '\U{2029}' || c == '\U{202f}'
    || c == '\U{205f}' || c == '\U{3000}'
  }

  function Start(l: string): (a: nat)
    ensures a <= |l| && (forall k | 0 <= k < a :: IsSpace(l[k])) && (a < |l| ==> !IsSpace(l[a]))
  {
    if l == "" || !IsSpace(l[0]) then 0
    else
      var a := Start(l[1..]);
      assert forall k | 1 <= k < a + 1 :: l[k] == l[1..][k - 1];
      a + 1
  }

  function Stop(l: string): (b: nat)
    ensures b <= |l| && (forall k | b <= k < |l| :: IsSpace(l[k])) && (b > 0 ==> !IsSpace(l[b - 1]))
  {
    if l == "" || !IsSpace(l[|l| - 1]) then |l| else Stop(l[..|l| - 1])
  }

  function TrimSpace(l: string): string {
    if Start(l) < Stop(l) then l[Start(l)..Stop(l)] else ""
  }

  // ---- the filter ----

  predicate Noise(l: string) {
    var trimmed := TrimSpace(l);
    "SET " <= trimmed || "SELECT pg_catalog" <= trimmed || "\\" <= trimmed
  }

  predicate Clean(l: string) { !Noise(l) }

  function Filtered(raw: string): string { Join(Kept(Split(raw), Clean)) }

  method FilterDumpLines(raw: string) returns (out: string)
    ensures out == Filtered(raw)
  {
    if raw == "" {
      assert Kept([""], Clean) == [""];
      return "";
    }
    var lines := Split(raw);
    var keep: seq<string> := [];
    for i := 0 to |lines|
      invariant keep == Kept(lines[..i], Clean)
    {
      KeptNext(lines, i, Clean);
      if Noise(lines[i]) {
        continue;
      }
      keep := keep + [lines[i]];
    }
    assert lines[..|lines|] == lines;
    out := Join(keep);
  }

  // ---- what filtering does to a dump ----

  /** The command starts at k, the first character that is no blank. */
  predicate CommandAt(l: string, k: nat) {
    && k < |l| && (forall j | 0 <= j < k :: IsSpace(l[j])) && !IsSpace(l[k])
  }

  predicate Argument(l: string, k: nat) { exists m | k <= m < |l| :: !IsSpace(l[m]) }

  lemma PrefixOfSlice(l: string, a: nat, b: nat, p: string)
    requires a <= b <= |l|
    ensures p <= l[a..b] <==> a + |p| <= b && p <= l[a..]
  {
    if a + |p| <= b {
      assert l[a..b][..|p|] == l[a..][..|p|];
    }
  }

  lemma PrefixOfTrimmed(l: string, p: string)
    requires p != ""
    ensures p <= TrimSpace(l) <==> Start(l) + |p| <= Stop(l) && p <= l[Start(l)..]
  {
    if Start(l) < Stop(l) {
      PrefixOfSlice(l, Start(l), Stop(l), p);
    }
  }

  lemma SolidBeforeStop(l: string, n: nat)
    ensures Argument(l, n) <==> n < Stop(l)
  {
    if n < Stop(l) {
      assert !IsSpace(l[Stop(l) - 1]);
    }
  }

  lemma LastOfPrefix(l: string, k: nat, p: string)
    requires k <= |l| && p != "" && p <= l[k..]
    ensures k + |p| <= |l| && l[k + |p| - 1] == p[|p| - 1]
  {
    assert l[k..][|p| - 1] == p[|p| - 1];
  }

  /** Trimming on the right leaves a prefix that ends in no blank. */
  lemma TrimmedPrefix(l: string, p: string)
    requires p != "" && !IsSpace(p[|p| - 1])
    ensures p <= TrimSpace(l) <==> p <= l[Start(l)..]
  {
    PrefixOfTrimmed(l, p);
    if p <= l[Start(l)..] {
      LastOfPrefix(l, Start(l), p);
    }
  }

  /** A prefix that ends in a blank needs something after it. */
  lemma TrimmedWord(l: string, p: string)
    requires p != "" && IsSpace(p[|p| - 1])
    ensures p <= TrimSpace(l) <==> p <= l[Start(l)..] && Start(l) + |p| < Stop(l)
  {
    PrefixOfTrimmed(l, p);
    if p <= l[Start(l)..] {
      LastOfPrefix(l, Start(l), p);
    }
  }

  /** What makes a command noise. */
  predicate NoiseFrom(l: string, k: nat)
    requires k <= |l|
  {
    "\\" <= l[k..] || "SELECT pg_catalog" <= l[k..] || ("SET " <= l[k..] && Argument(l, k + 4))
  }

  lemma NoiseAtStart(l: string)
    ensures Noise(l) <==> NoiseFrom(l, Start(l))
  {
    TrimmedPrefix(l, "\\");
    TrimmedPrefix(l, "SELECT pg_catalog");
    TrimmedWord(l, "SET ");
    SolidBeforeStop(l, Start(l) + 4);
  }

  lemma BlankLinesStay(l: string)
    requires forall c | c in l :: IsSpace(c)
    ensures Clean(l)
  {
    assert Start(l) == |l|;
  }

  /** Noise, without trimming, for every line: a bare SET, with nothing but blanks after it,
      is kept, and so is a blank line. */
  lemma NoiseExactlyWhen(l: string)
    ensures Noise(l) <==> exists k: nat :: CommandAt(l, k) && NoiseFrom(l, k)
  {
    if Start(l) < |l| {
      NoiseAtStart(l);
      assert CommandAt(l, Start(l));
      forall k: nat | CommandAt(l, k)
        ensures k == Start(l)
      {
      }
    } else {
      BlankLinesStay(l);
    }
  }

  /** A line the comment would strip: it survives the filter. */
  lemma BareSetStays()
    ensures Filtered("SET ") == "SET "
  {
    var l := "SET ";
    assert CommandAt(l, 0) && !Argument(l, 4);
    forall k: nat | CommandAt(l, k)
      ensures !NoiseFrom(l, k)
    {
      assert l[k..][0] == 'S';
    }
    NoiseExactlyWhen(l);
    SplitFirst(l, "");
    UnchangedExactlyWhen(l);
  }

  /** The lines that stay are the clean lines, in order; a dump of noise alone leaves one empty line. */
  lemma LinesOfFiltered(raw: string)
    ensures Split(Filtered(raw)) ==
            (if Kept(Split(raw), Clean) == [] then [""] else Kept(Split(raw), Clean))
  {
    var keep := Kept(Split(raw), Clean);
    if keep != [] {
      SplitIntoLines(raw);
      KeptMembers(Split(raw), Clean);
      SplitInvertsJoin(keep);
    }
  }

  /** Filtering twice is filtering once. */
  lemma FilteringIsIdempotent(raw: string)
    ensures Filtered(Filtered(raw)) == Filtered(raw)
  {
    LinesOfFiltered(raw);
    KeptTwice(Split(raw), Clean);
    assert Kept([""], Clean) == [""];
  }

  lemma OutputIsClean(raw: string)
    ensures forall l | l in Split(Filtered(raw)) :: Clean(l)
  {
    LinesOfFiltered(raw);
    KeptMembers(Split(raw), Clean);
  }

  /** Exactly the dumps without noise pass unchanged. */
  lemma UnchangedExactlyWhen(raw: string)
    ensures Filtered(raw) == raw <==> forall l | l in Split(raw) :: Clean(l)
  {
    if forall l | l in Split(raw) :: Clean(l) {
      EverythingKept(Split(raw), Clean);
      JoinInvertsSplit(raw);
    }
    OutputIsClean(raw);
  }
}
