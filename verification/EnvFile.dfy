/** `upsert_env_file` and `upsert_env_key` of xtask/src/install_dev.rs. */
module EnvFile {
  import opened Text

  /** One `KEY=value` pair to write. */
  datatype Pair = Pair(key: string, value: string)

  // ---------------------------------------------------------------- the code

  function StripCr(line: string): string {
    if line != "" && line[|line| - 1] == '\r' then line[..|line| - 1] else line
  }

  /** Rust's `str::lines`: a carriage return is dropped only before a line feed. */
  function Lines(s: string): seq<string>
    decreases |s|
  {
    if s == "" then []
    else
      var k := IndexOf(s, '\n');
      if k == |s| then [s] else [StripCr(s[..k])] + Lines(s[k + 1..])
  }

  function Unlines(ls: seq<string>): string {
    Join(ls, "\n") + "\n"
  }

  function Prefix(p: Pair): string {
    p.key + "="
  }

  function Assignment(p: Pair): string {
    Prefix(p) + p.value
  }

  predicate Sets(line: string, p: Pair) {
    Prefix(p) <= line
  }

  function Replace(line: string, p: Pair): string {
    if Sets(line, p) then Assignment(p) else line
  }

  function ReplaceAll(ls: seq<string>, p: Pair): (r: seq<string>)
    ensures |r| == |ls|
    ensures forall i :: 0 <= i < |ls| ==> r[i] == Replace(ls[i], p)
  {
    seq(|ls|, i requires 0 <= i < |ls| => Replace(ls[i], p))
  }

  predicate Present(ls: seq<string>, p: Pair) {
    exists i :: 0 <= i < |ls| && Sets(ls[i], p)
  }

  function UpsertLines(ls: seq<string>, p: Pair): seq<string> {
    ReplaceAll(ls, p) + (if Present(ls, p) then [] else [Assignment(p)])
  }

  function UpsertKey(content: string, p: Pair): string {
    Unlines(UpsertLines(Lines(content), p))
  }

  function UpsertKeys(content: string, ps: seq<Pair>): string
    decreases |ps|
  {
    if ps == [] then content else UpsertKeys(UpsertKey(content, ps[0]), ps[1..])
  }

  /** The file gets a final line feed before the keys are written. */
  function WithNewline(content: string): string {
    if content != "" && content[|content| - 1] != '\n' then content + "\n" else content
  }

  function UpsertFile(content: string, ps: seq<Pair>): string {
    UpsertKeys(WithNewline(content), ps)
  }

  method UpsertEnvKey(content: string, p: Pair) returns (result: string)
    ensures result == UpsertKey(content, p)
  {
    var found := false;
    var lines := [];
    var source := Lines(content);
    for i := 0 to |source|
      invariant lines == ReplaceAll(source, p)[..i]
      invariant found <==> exists j :: 0 <= j < i && Sets(source[j], p)
    {
      if Sets(source[i], p) {
        lines, found := lines + [Assignment(p)], true;
      } else {
        lines := lines + [source[i]];
      }
    }
    assert lines == ReplaceAll(source, p);
    if !found {
      lines := lines + [Assignment(p)];
    }
    assert lines == UpsertLines(source, p);
    result := Join(lines, "\n");
    result := result + "\n";
  }

  /** A missing file reads as empty; a dry run writes nothing. */
  method UpsertEnvFile(file: Option<string>, ps: seq<Pair>, dryRun: bool) returns (written: Option<string>)
    ensures dryRun ==> written == file
    ensures !dryRun ==> written == Some(UpsertFile(if file.Some? then file.value else "", ps))
  {
    if dryRun { return file; }
    var content := if file.Some? then file.value else "";
    if content != "" && content[|content| - 1] != '\n' {
      content := content + "\n";
    }
    ghost var start := content;
    for i := 0 to |ps|
      invariant UpsertKeys(content, ps[i..]) == UpsertKeys(start, ps)
    {
      assert UpsertKeys(content, ps[i..]) == UpsertKeys(UpsertKey(content, ps[i]), ps[i + 1..]) by {
        assert ps[i..][0] == ps[i] && ps[i..][1..] == ps[i + 1..];
      }
      content := UpsertEnvKey(content, ps[i]);
    }
    written := Some(content);
  }

  // --------------------------------------------------- the promised conditions

  predicate NoBreak(s: string) {
    '\n' !in s && '\r' !in s
  }

  predicate LegalPair(p: Pair) {
    '=' !in p.key && NoBreak(p.key) && NoBreak(p.value)
  }

  predicate LegalPairs(ps: seq<Pair>) {
    && (forall i :: 0 <= i < |ps| ==> LegalPair(ps[i]))
    && (forall i, j :: 0 <= i < j < |ps| ==> ps[i].key != ps[j].key)
  }

  // ----------------------------------------------- what the edit does to lines

  /** The file's lines with every line that sets one of the keys rewritten. */
  function Rewrite(line: string, ps: seq<Pair>): string {
    if ps == [] then line
    else if Sets(line, ps[0]) then Assignment(ps[0])
    else Rewrite(line, ps[1..])
  }

  function RewriteAll(ls: seq<string>, ps: seq<Pair>): (r: seq<string>)
    ensures |r| == |ls|
    ensures forall i :: 0 <= i < |ls| ==> r[i] == Rewrite(ls[i], ps)
  {
    seq(|ls|, i requires 0 <= i < |ls| => Rewrite(ls[i], ps))
  }

  /** The assignments of the keys that no line sets, in order. */
  function Missing(ls: seq<string>, ps: seq<Pair>): seq<string>
    decreases |ps|
  {
    if ps == [] then []
    else (if Present(ls, ps[0]) then [] else [Assignment(ps[0])]) + Missing(ls, ps[1..])
  }

  /** The closed form of the whole edit. */
  function Merged(ls: seq<string>, ps: seq<Pair>): seq<string> {
    RewriteAll(ls, ps) + Missing(ls, ps)
  }

  function UpsertAll(ls: seq<string>, ps: seq<Pair>): seq<string>
    decreases |ps|
  {
    if ps == [] then ls else UpsertAll(UpsertLines(ls, ps[0]), ps[1..])
  }

  /** A line sets at most one key. */
  lemma SetsOne(line: string, p: Pair, q: Pair)
    requires '=' !in p.key && '=' !in q.key && Sets(line, p) && Sets(line, q)
    ensures p.key == q.key
  {
    KeyEnds(line, p);
    KeyEnds(line, q);
  }

  /** The key a line sets ends at the line's first equals sign. */
  lemma KeyEnds(line: string, p: Pair)
    requires '=' !in p.key && Sets(line, p)
    ensures IndexOf(line, '=') == |p.key| && line[..|p.key|] == p.key
  {
    assert line[|p.key|] == Prefix(p)[|p.key|];
    forall i | 0 <= i < |p.key| ensures line[i] != '=' {
      assert line[i] == Prefix(p)[i] == p.key[i];
    }
    IndexOfIs(line, '=', |p.key|);
  }

  predicate Apart(p: Pair, ps: seq<Pair>) {
    '=' !in p.key && forall i :: 0 <= i < |ps| ==> '=' !in ps[i].key && ps[i].key != p.key
  }

  lemma ApartFirst(ps: seq<Pair>)
    requires LegalPairs(ps) && ps != []
    ensures Apart(ps[0], ps[1..]) && LegalPairs(ps[1..])
  {
    assert LegalPair(ps[0]);
    forall i | 0 <= i < |ps[1..]|
      ensures LegalPair(ps[1..][i]) && ps[1..][i].key != ps[0].key
    {
      assert ps[1..][i] == ps[i + 1];
    }
  }

  lemma {:induction false} RewriteAssigned(p: Pair, ps: seq<Pair>)
    requires Apart(p, ps)
    ensures Rewrite(Assignment(p), ps) == Assignment(p)
    decreases |ps|
  {
    if ps != [] {
      assert ps[0].key != p.key;
      assert Sets(Assignment(p), p);
      if Sets(Assignment(p), ps[0]) { SetsOne(Assignment(p), p, ps[0]); }
      assert forall i :: 0 <= i < |ps[1..]| ==> ps[1..][i] == ps[i + 1];
      RewriteAssigned(p, ps[1..]);
    }
  }

  lemma RewriteAfter(line: string, p: Pair, ps: seq<Pair>)
    requires Apart(p, ps)
    ensures Rewrite(Replace(line, p), ps) == Rewrite(line, [p] + ps)
  {
    assert ([p] + ps)[1..] == ps;
    if Sets(line, p) { RewriteAssigned(p, ps); }
  }

  /** Writing one key does not change which other keys are present. */
  lemma PresentAfter(ls: seq<string>, p: Pair, q: Pair)
    requires '=' !in p.key && '=' !in q.key && p.key != q.key
    ensures Present(UpsertLines(ls, p), q) == Present(ls, q)
  {
    var r := UpsertLines(ls, p);
    if Sets(Assignment(p), q) {
      assert Sets(Assignment(p), p);
      SetsOne(Assignment(p), p, q);
    }
    if Present(ls, q) {
      var i :| 0 <= i < |ls| && Sets(ls[i], q);
      if Sets(ls[i], p) { SetsOne(ls[i], p, q); }
      assert r[i] == ls[i];
    }
    if Present(r, q) {
      var i :| 0 <= i < |r| && Sets(r[i], q);
      assert r[i] != Assignment(p);
      assert i < |ls| && r[i] == ls[i];
    }
  }

  lemma {:induction false} MissingAfter(ls: seq<string>, p: Pair, ps: seq<Pair>)
    requires Apart(p, ps)
    ensures Missing(UpsertLines(ls, p), ps) == Missing(ls, ps)
    decreases |ps|
  {
    if ps != [] {
      assert ps[0].key != p.key && '=' !in ps[0].key;
      PresentAfter(ls, p, ps[0]);
      assert forall i :: 0 <= i < |ps[1..]| ==> ps[1..][i] == ps[i + 1];
      MissingAfter(ls, p, ps[1..]);
    }
  }

  lemma RewriteAllAfter(ls: seq<string>, p: Pair, ps: seq<Pair>)
    requires Apart(p, ps)
    ensures RewriteAll(UpsertLines(ls, p), ps)
         == RewriteAll(ls, [p] + ps) + (if Present(ls, p) then [] else [Assignment(p)])
  {
    var added := if Present(ls, p) then [] else [Assignment(p)];
    var a, b := RewriteAll(UpsertLines(ls, p), ps), RewriteAll(ls, [p] + ps) + added;
    RewriteAssigned(p, ps);
    forall i | 0 <= i < |a| ensures a[i] == b[i] {
      if i < |ls| { RewriteAfter(ls[i], p, ps); }
    }
  }

  /** Closed form of the whole edit: the lines that set a key are rewritten in place, every
      other line keeps its text and position, and the absent keys are appended in order. */
  lemma {:induction false} UpsertAllForm(ls: seq<string>, ps: seq<Pair>)
    requires LegalPairs(ps)
    ensures UpsertAll(ls, ps) == Merged(ls, ps)
    decreases |ps|
  {
    if ps == [] {
      assert Merged(ls, ps) == ls;
    } else {
      var p, rest := ps[0], ps[1..];
      ApartFirst(ps);
      assert [p] + rest == ps;
      UpsertAllForm(UpsertLines(ls, p), rest);
      RewriteAllAfter(ls, p, rest);
      MissingAfter(ls, p, rest);
    }
  }

  // ------------------------------------------------------- the edit on its own

  lemma {:induction false} RewriteHit(line: string, ps: seq<Pair>, i: nat)
    requires LegalPairs(ps) && i < |ps|
    ensures Sets(line, ps[i]) ==> Rewrite(line, ps) == Assignment(ps[i])
    decreases |ps|
  {
    ApartFirst(ps);
    if i > 0 {
      if Sets(line, ps[i]) && Sets(line, ps[0]) { SetsOne(line, ps[i], ps[0]); }
      RewriteHit(line, ps[1..], i - 1);
    }
  }

  lemma {:induction false} RewriteMiss(line: string, ps: seq<Pair>)
    ensures (forall i :: 0 <= i < |ps| ==> !Sets(line, ps[i])) ==> Rewrite(line, ps) == line
    ensures Rewrite(line, ps) == line || exists i :: 0 <= i < |ps| && Rewrite(line, ps) == Assignment(ps[i])
    decreases |ps|
  {
    if ps != [] {
      RewriteMiss(line, ps[1..]);
      assert forall i :: 0 <= i < |ps[1..]| ==> ps[1..][i] == ps[i + 1];
    }
  }

  lemma {:induction false} MissingAre(ls: seq<string>, ps: seq<Pair>, i: nat)
    requires i < |ps|
    ensures !Present(ls, ps[i]) ==> Assignment(ps[i]) in Missing(ls, ps)
    decreases |ps|
  {
    if i > 0 { MissingAre(ls, ps[1..], i - 1); }
  }

  lemma {:induction false} MissingOnly(ls: seq<string>, ps: seq<Pair>, x: string)
    requires x in Missing(ls, ps)
    ensures exists i :: 0 <= i < |ps| && x == Assignment(ps[i])
    decreases |ps|
  {
    if x in Missing(ls, ps[1..]) {
      MissingOnly(ls, ps[1..], x);
      var i :| 0 <= i < |ps[1..]| && x == Assignment(ps[1..][i]);
      assert x == Assignment(ps[i + 1]);
    } else {
      assert x == Assignment(ps[0]);
    }
  }

  lemma WrittenLine(ls: seq<string>, ps: seq<Pair>, line: string, i: nat)
    requires LegalPairs(ps) && i < |ps|
    requires line in Merged(ls, ps) && Sets(line, ps[i])
    ensures line == Assignment(ps[i])
  {
    if exists j :: 0 <= j < |ps| && line == Assignment(ps[j]) {
      var j :| 0 <= j < |ps| && line == Assignment(ps[j]);
      assert LegalPair(ps[i]) && LegalPair(ps[j]);
      assert Sets(line, ps[j]);
      SetsOne(line, ps[i], ps[j]);
    } else {
      if line in Missing(ls, ps) { MissingOnly(ls, ps, line); }
      var k :| 0 <= k < |ls| && RewriteAll(ls, ps)[k] == line;
      RewriteMiss(ls[k], ps);
      assert ls[k] == line;
      RewriteHit(line, ps, i);
    }
  }

  lemma {:induction false} NothingMissing(ls: seq<string>, ps: seq<Pair>)
    requires forall i :: 0 <= i < |ps| ==> Present(ls, ps[i])
    ensures Missing(ls, ps) == []
    decreases |ps|
  {
    if ps != [] {
      assert forall i :: 0 <= i < |ps[1..]| ==> ps[1..][i] == ps[i + 1];
      NothingMissing(ls, ps[1..]);
    }
  }

  /** A line that sets no key is untouched; one that sets a key already holds its value. */
  lemma RewriteSettled(line: string, ps: seq<Pair>)
    requires LegalPairs(ps)
    requires forall i :: 0 <= i < |ps| && Sets(line, ps[i]) ==> line == Assignment(ps[i])
    ensures Rewrite(line, ps) == line
  {
    RewriteMiss(line, ps);
    if exists i :: 0 <= i < |ps| && Sets(line, ps[i]) {
      var i :| 0 <= i < |ps| && Sets(line, ps[i]);
      RewriteHit(line, ps, i);
    }
  }

  /** Every key reads back its value, and from every line that sets it. */
  lemma MergedSets(ls: seq<string>, ps: seq<Pair>, i: nat)
    requires LegalPairs(ps) && i < |ps|
    ensures Present(Merged(ls, ps), ps[i])
    ensures forall line :: line in Merged(ls, ps) && Sets(line, ps[i]) ==> line == Assignment(ps[i])
  {
    var out := Merged(ls, ps);
    forall line | line in out && Sets(line, ps[i]) ensures line == Assignment(ps[i]) {
      WrittenLine(ls, ps, line, i);
    }
    assert Sets(Assignment(ps[i]), ps[i]);
    if Present(ls, ps[i]) {
      var j :| 0 <= j < |ls| && Sets(ls[j], ps[i]);
      RewriteHit(ls[j], ps, i);
      assert out[j] == Assignment(ps[i]);
    } else {
      MissingAre(ls, ps, i);
      var j :| 0 <= j < |Missing(ls, ps)| && Missing(ls, ps)[j] == Assignment(ps[i]);
      assert out[|ls| + j] == Assignment(ps[i]);
    }
  }

  /** The edit of a list of lines is settled after one pass. */
  lemma MergedSettled(ls: seq<string>, ps: seq<Pair>)
    requires LegalPairs(ps)
    ensures Merged(Merged(ls, ps), ps) == Merged(ls, ps)
  {
    var out := Merged(ls, ps);
    forall i | 0 <= i < |ps|
      ensures Present(out, ps[i])
      ensures forall line :: line in out && Sets(line, ps[i]) ==> line == Assignment(ps[i])
    {
      MergedSets(ls, ps, i);
    }
    NothingMissing(out, ps);
    forall j | 0 <= j < |out| ensures Rewrite(out[j], ps) == out[j] {
      assert out[j] in out;
      RewriteSettled(out[j], ps);
    }
  }

  // ------------------------------------------------------------ carriage returns

  function StripCrs(line: string, n: nat): string
    decreases n
  {
    if n == 0 then line else StripCrs(StripCr(line), n - 1)
  }

  function StripEach(ls: seq<string>, n: nat): (r: seq<string>)
    ensures |r| == |ls|
    ensures forall i :: 0 <= i < |ls| ==> r[i] == StripCrs(ls[i], n)
  {
    seq(|ls|, i requires 0 <= i < |ls| => StripCrs(ls[i], n))
  }

  function TrailingCrs(line: string): nat {
    if line != "" && line[|line| - 1] == '\r' then 1 + TrailingCrs(line[..|line| - 1]) else 0
  }

  lemma {:induction false} StripCrsCounts(line: string, n: nat)
    ensures TrailingCrs(StripCrs(line, n)) == if TrailingCrs(line) <= n then 0 else TrailingCrs(line) - n
    ensures |StripCrs(line, n)| == if TrailingCrs(line) <= n then |line| - TrailingCrs(line) else |line| - n
    decreases n
  {
    if n > 0 { StripCrsCounts(StripCr(line), n - 1); }
  }

  lemma {:induction false} StripCrsSame(line: string, n: nat)
    requires TrailingCrs(line) == 0
    ensures StripCrs(line, n) == line
    decreases n
  {
    if n > 0 { StripCrsSame(line, n - 1); }
  }

  lemma {:induction false} StripCrsMore(line: string, n: nat, m: nat)
    ensures StripCrs(StripCrs(line, n), m) == StripCrs(line, n + m)
    decreases n
  {
    if n > 0 { StripCrsMore(StripCr(line), n - 1, m); }
  }

  lemma StripEachMore(ls: seq<string>, n: nat, m: nat)
    ensures StripEach(StripEach(ls, n), m) == StripEach(ls, n + m)
  {
    forall i | 0 <= i < |ls| ensures StripEach(StripEach(ls, n), m)[i] == StripEach(ls, n + m)[i] {
      StripCrsMore(ls[i], n, m);
    }
  }

  /** Which key a line sets does not depend on the carriage returns at its end. */
  lemma {:induction false} SetsStripped(line: string, p: Pair, n: nat)
    requires '\r' !in p.key
    ensures Sets(StripCrs(line, n), p) == Sets(line, p)
    decreases n
  {
    if n > 0 {
      SetsStrippedOnce(line, p);
      SetsStripped(StripCr(line), p, n - 1);
    }
  }

  lemma SetsStrippedOnce(line: string, p: Pair)
    requires '\r' !in p.key
    ensures Sets(StripCr(line), p) == Sets(line, p)
  {
    if Sets(line, p) && StripCr(line) != line {
      assert Prefix(p)[|Prefix(p)| - 1] == '=';
      assert Prefix(p) <= line[..|line| - 1];
    }
  }

  lemma AssignmentEnds(p: Pair)
    requires LegalPair(p)
    ensures TrailingCrs(Assignment(p)) == 0 && '\n' !in Assignment(p)
  {
    var a := Assignment(p);
    assert a[|a| - 1] == '=' || a[|a| - 1] in p.value;
  }

  lemma ReplaceStripped(line: string, p: Pair, n: nat)
    requires LegalPair(p)
    ensures StripCrs(Replace(line, p), n) == Replace(StripCrs(line, n), p)
  {
    SetsStripped(line, p, n);
    AssignmentEnds(p);
    StripCrsSame(Assignment(p), n);
  }

  lemma PresentStripped(ls: seq<string>, p: Pair, n: nat)
    requires LegalPair(p)
    ensures Present(StripEach(ls, n), p) == Present(ls, p)
  {
    forall i | 0 <= i < |ls| ensures Sets(StripEach(ls, n)[i], p) == Sets(ls[i], p) {
      SetsStripped(ls[i], p, n);
    }
    if Present(ls, p) {
      var i :| 0 <= i < |ls| && Sets(ls[i], p);
      assert Sets(StripEach(ls, n)[i], p);
    }
  }

  /** Stripping and writing a key commute. */
  lemma UpsertStripped(ls: seq<string>, p: Pair, n: nat)
    requires LegalPair(p)
    ensures StripEach(UpsertLines(ls, p), n) == UpsertLines(StripEach(ls, n), p)
  {
    var a, b := StripEach(UpsertLines(ls, p), n), UpsertLines(StripEach(ls, n), p);
    PresentStripped(ls, p, n);
    AssignmentEnds(p);
    StripCrsSame(Assignment(p), n);
    forall i | 0 <= i < |a| ensures a[i] == b[i] {
      if i < |ls| { ReplaceStripped(ls[i], p, n); }
    }
  }

  lemma {:induction false} UpsertAllStripped(ls: seq<string>, ps: seq<Pair>, n: nat)
    requires LegalPairs(ps)
    ensures StripEach(UpsertAll(ls, ps), n) == UpsertAll(StripEach(ls, n), ps)
    decreases |ps|
  {
    if ps != [] {
      ApartFirst(ps);
      assert LegalPair(ps[0]);
      UpsertStripped(ls, ps[0], n);
      UpsertAllStripped(UpsertLines(ls, ps[0]), ps[1..], n);
    }
  }

  lemma MergedStripped(ls: seq<string>, ps: seq<Pair>, n: nat)
    requires LegalPairs(ps)
    ensures StripEach(Merged(ls, ps), n) == Merged(StripEach(ls, n), ps)
  {
    UpsertAllForm(ls, ps);
    UpsertAllForm(StripEach(ls, n), ps);
    UpsertAllStripped(ls, ps, n);
  }

  // ------------------------------------------------------- lines and file text

  /** The text between line feeds, carriage returns included. */
  function RawLines(s: string): seq<string>
    decreases |s|
  {
    if s == "" then []
    else
      var k := IndexOf(s, '\n');
      if k == |s| then [s] else [s[..k]] + RawLines(s[k + 1..])
  }

  predicate Terminated(s: string) {
    s == "" || s[|s| - 1] == '\n'
  }

  predicate Unbroken(ls: seq<string>) {
    forall i :: 0 <= i < |ls| ==> '\n' !in ls[i]
  }

  lemma BreakFound(s: string)
    requires s != "" && Terminated(s)
    ensures IndexOf(s, '\n') < |s|
  {
    assert s[|s| - 1] in s;
    if IndexOf(s, '\n') == |s| { IndexOfNone(s, '\n'); }
  }

  lemma LinesFirst(s: string, k: nat)
    requires k == IndexOf(s, '\n') < |s|
    ensures Lines(s) == [StripCr(s[..k])] + Lines(s[k + 1..])
    ensures RawLines(s) == [s[..k]] + RawLines(s[k + 1..])
  {
  }

  lemma StripFirst(line: string, rest: seq<string>)
    ensures StripEach([line] + rest, 1) == [StripCr(line)] + StripEach(rest, 1)
  {
    assert StripCrs(line, 1) == StripCr(line);
  }

  lemma {:induction false} LinesStripped(s: string)
    requires Terminated(s)
    ensures Lines(s) == StripEach(RawLines(s), 1)
    decreases |s|
  {
    if s != "" {
      BreakFound(s);
      var k := IndexOf(s, '\n');
      var rest := s[k + 1..];
      assert rest != "" ==> rest[|rest| - 1] == s[|s| - 1];
      LinesStripped(rest);
      LinesFirst(s, k);
      StripFirst(s[..k], RawLines(rest));
    }
  }

  lemma RawCons(line: string, rest: string)
    requires '\n' !in line
    ensures RawLines(line + "\n" + rest) == [line] + RawLines(rest)
  {
    var s := line + "\n" + rest;
    IndexOfIs(s, '\n', |line|);
    assert s[..|line|] == line && s[|line| + 1..] == rest;
  }

  lemma {:induction false} RawUnlines(ls: seq<string>)
    requires ls != [] && Unbroken(ls)
    ensures RawLines(Unlines(ls)) == ls
  {
    if |ls| == 1 {
      assert Unlines(ls) == ls[0] + "\n" + "";
      RawCons(ls[0], "");
    } else {
      assert Unlines(ls) == ls[0] + "\n" + Unlines(ls[1..]);
      RawCons(ls[0], Unlines(ls[1..]));
      RawUnlines(ls[1..]);
    }
  }

  lemma {:induction false} RawUnbroken(s: string)
    ensures Unbroken(RawLines(s))
    decreases |s|
  {
    if s != "" {
      var k := IndexOf(s, '\n');
      if k == |s| { IndexOfNone(s, '\n'); } else { RawUnbroken(s[k + 1..]); }
    }
  }

  lemma {:induction false} StripCrsPrefix(line: string, n: nat)
    ensures StripCrs(line, n) <= line
    decreases n
  {
    if n > 0 { StripCrsPrefix(StripCr(line), n - 1); }
  }

  lemma StripEachUnbroken(ls: seq<string>, n: nat)
    requires Unbroken(ls)
    ensures Unbroken(StripEach(ls, n))
  {
    forall i | 0 <= i < |ls| ensures '\n' !in StripEach(ls, n)[i] {
      StripCrsPrefix(ls[i], n);
    }
  }

  lemma UpsertUnbroken(ls: seq<string>, p: Pair)
    requires Unbroken(ls) && LegalPair(p)
    ensures Unbroken(UpsertLines(ls, p)) && UpsertLines(ls, p) != []
  {
    AssignmentEnds(p);
    forall i | 0 <= i < |UpsertLines(ls, p)| ensures '\n' !in UpsertLines(ls, p)[i] {
      if i < |ls| { assert '\n' !in ls[i]; }
    }
    if ls == [] { assert !Present(ls, p); }
  }

  /** One key: the lines written, and read again by the next key. */
  lemma UpsertKeyRaw(content: string, p: Pair)
    requires Terminated(content) && LegalPair(p)
    ensures var out := UpsertLines(StripEach(RawLines(content), 1), p);
            Writes(UpsertKey(content, p), out)
  {
    LinesStripped(content);
    RawUnbroken(content);
    StripEachUnbroken(RawLines(content), 1);
    UpsertUnbroken(StripEach(RawLines(content), 1), p);
    RawUnlines(UpsertLines(StripEach(RawLines(content), 1), p));
  }

  lemma StripThenUpsert(raw: seq<string>, p: Pair, n: nat)
    requires LegalPair(p)
    ensures StripEach(UpsertLines(StripEach(raw, 1), p), n) == UpsertLines(StripEach(raw, n + 1), p)
  {
    UpsertStripped(StripEach(raw, 1), p, n);
    StripEachMore(raw, 1, n);
  }

  /** The fold over the keys, on raw lines. */
  function UpsertRaw(raw: seq<string>, ps: seq<Pair>): seq<string>
    decreases |ps|
  {
    if ps == [] then raw else UpsertRaw(UpsertLines(StripEach(raw, 1), ps[0]), ps[1..])
  }

  predicate Writes(text: string, ls: seq<string>) {
    && text == Unlines(ls) && RawLines(text) == ls
    && Terminated(text)
  }

  lemma {:induction false} UpsertKeysRaw(content: string, ps: seq<Pair>)
    requires Terminated(content) && LegalPairs(ps) && ps != []
    ensures Writes(UpsertKeys(content, ps), UpsertRaw(RawLines(content), ps))
    decreases |ps|
  {
    assert LegalPair(ps[0]);
    UpsertKeyRaw(content, ps[0]);
    if |ps| == 1 {
      assert ps[1..] == [];
    } else {
      ApartFirst(ps);
      UpsertKeysRaw(UpsertKey(content, ps[0]), ps[1..]);
    }
  }

  /** Every key strips each line once. */
  lemma {:induction false} UpsertRawStrips(raw: seq<string>, ps: seq<Pair>)
    requires LegalPairs(ps)
    ensures UpsertRaw(raw, ps) == UpsertAll(StripEach(raw, |ps|), ps)
    decreases |ps|
  {
    if ps == [] {
      assert StripEach(raw, 0) == raw;
    } else {
      ApartFirst(ps);
      assert LegalPair(ps[0]);
      var once := UpsertLines(StripEach(raw, 1), ps[0]);
      UpsertRawStrips(once, ps[1..]);
      StripThenUpsert(raw, ps[0], |ps| - 1);
      assert UpsertRaw(raw, ps) == UpsertAll(StripEach(once, |ps| - 1), ps[1..]);
    }
  }

  // ------------------------------------------------------------ main theorems

  /** The lines a file is made of, the last one completed. */
  function FileLines(content: string): seq<string> {
    RawLines(WithNewline(content))
  }

  /** The lines of the written file, for any content: each key costs every line that sets no
      key one carriage return at its end. */
  lemma UpsertFileLines(content: string, ps: seq<Pair>)
    requires LegalPairs(ps) && ps != []
    ensures var out := Merged(StripEach(FileLines(content), |ps|), ps);
            UpsertFile(content, ps) == Unlines(out) && FileLines(UpsertFile(content, ps)) == out
  {
    UpsertKeysRaw(WithNewline(content), ps);
    UpsertRawStrips(FileLines(content), ps);
    UpsertAllForm(StripEach(FileLines(content), |ps|), ps);
  }

  /** Every key reads back its value, and from every line that sets it. */
  lemma ReadBack(content: string, ps: seq<Pair>, i: nat)
    requires LegalPairs(ps) && i < |ps|
    ensures var out := Lines(UpsertFile(content, ps));
            Present(out, ps[i]) && forall line :: line in out && Sets(line, ps[i]) ==> line == Assignment(ps[i])
  {
    var stripped := StripEach(FileLines(content), |ps|);
    UpsertFileLines(content, ps);
    LinesStripped(UpsertFile(content, ps));
    MergedStripped(stripped, ps, 1);
    MergedSets(StripEach(stripped, 1), ps, i);
  }

  /** Every line that sets no key keeps its place and, carriage returns at its end aside, its
      text; what is added at the end are assignments of the given keys only. */
  lemma OtherLinesKept(content: string, ps: seq<Pair>, j: nat)
    requires LegalPairs(ps) && ps != [] && j < |FileLines(UpsertFile(content, ps))|
    ensures KeptOrAdded(StripEach(FileLines(content), |ps|), FileLines(UpsertFile(content, ps)), ps, j)
    ensures j < |FileLines(content)| && TrailingCrs(FileLines(content)[j]) == 0 ==>
              KeptOrAdded(FileLines(content), FileLines(UpsertFile(content, ps)), ps, j)
  {
    var ls := StripEach(FileLines(content), |ps|);
    UpsertFileLines(content, ps);
    MergedKeeps(ls, ps, j);
    if j < |ls| && TrailingCrs(FileLines(content)[j]) == 0 { StripCrsSame(FileLines(content)[j], |ps|); }
  }

  lemma MergedKeeps(ls: seq<string>, ps: seq<Pair>, j: nat)
    requires j < |Merged(ls, ps)|
    ensures KeptOrAdded(ls, Merged(ls, ps), ps, j)
  {
    if j < |ls| {
      RewriteMiss(ls[j], ps);
    } else {
      assert Merged(ls, ps)[j] == Missing(ls, ps)[j - |ls|];
      MissingOnly(ls, ps, Merged(ls, ps)[j]);
    }
  }

  ghost predicate KeptOrAdded(ls: seq<string>, out: seq<string>, ps: seq<Pair>, j: nat)
    requires j < |out|
  {
    if j < |ls|
    then (forall i :: 0 <= i < |ps| ==> !Sets(ls[j], ps[i])) ==> out[j] == ls[j]
    else exists i :: 0 <= i < |ps| && out[j] == Assignment(ps[i])
  }

  predicate SetsAny(line: string, ps: seq<Pair>) {
    exists i :: 0 <= i < |ps| && Sets(line, ps[i])
  }

  /** The lines that a second run leaves alone. */
  predicate Stable(line: string, ps: seq<Pair>) {
    SetsAny(line, ps) || TrailingCrs(line) <= |ps|
  }

  lemma SetsAnyStripped(line: string, ps: seq<Pair>, n: nat)
    requires LegalPairs(ps)
    ensures SetsAny(StripCrs(line, n), ps) == SetsAny(line, ps)
  {
    forall i | 0 <= i < |ps| ensures Sets(StripCrs(line, n), ps[i]) == Sets(line, ps[i]) {
      assert LegalPair(ps[i]);
      SetsStripped(line, ps[i], n);
    }
  }

  /** One line after one and after two runs. */
  lemma StableExactly(line: string, ps: seq<Pair>)
    requires LegalPairs(ps) && ps != []
    ensures var once := StripCrs(line, |ps|);
            Rewrite(once, ps) == Rewrite(StripCrs(once, |ps|), ps) <==> Stable(line, ps)
  {
    var n := |ps|;
    var once := StripCrs(line, n);
    SetsAnyStripped(line, ps, n);
    SetsAnyStripped(once, ps, n);
    if SetsAny(once, ps) {
      var i :| 0 <= i < |ps| && Sets(once, ps[i]);
      assert LegalPair(ps[i]);
      SetsStripped(once, ps[i], n);
      RewriteHit(once, ps, i);
      RewriteHit(StripCrs(once, n), ps, i);
    } else {
      RewriteMiss(once, ps);
      RewriteMiss(StripCrs(once, n), ps);
      StripCrsCounts(line, n);
      StripCrsCounts(once, n);
      if TrailingCrs(once) == 0 { StripCrsSame(once, n); }
    }
  }

  lemma {:induction false} MissingStripped(ls: seq<string>, ps: seq<Pair>, n: nat)
    requires LegalPairs(ps)
    ensures Missing(StripEach(ls, n), ps) == Missing(ls, ps)
    decreases |ps|
  {
    if ps != [] {
      ApartFirst(ps);
      assert LegalPair(ps[0]);
      PresentStripped(ls, ps[0], n);
      MissingStripped(ls, ps[1..], n);
    }
  }

  lemma MergedStable(raw: seq<string>, ps: seq<Pair>)
    requires LegalPairs(ps) && ps != []
    ensures var once := StripEach(raw, |ps|);
            Merged(once, ps) == Merged(StripEach(once, |ps|), ps)
            <==> forall i :: 0 <= i < |raw| ==> Stable(raw[i], ps)
  {
    var once := StripEach(raw, |ps|);
    var a, b := Merged(once, ps), Merged(StripEach(once, |ps|), ps);
    MissingStripped(once, ps, |ps|);
    forall i | 0 <= i < |raw| ensures a[i] == b[i] <==> Stable(raw[i], ps) {
      StableExactly(raw[i], ps);
    }
    if forall i :: 0 <= i < |raw| ==> Stable(raw[i], ps) {
      assert RewriteAll(once, ps) == RewriteAll(StripEach(once, |ps|), ps);
    }
  }

  /** A second run leaves the file byte for byte the same, exactly when no line that sets no
      key ends in more carriage returns than there are keys. */
  lemma FixpointExact(content: string, ps: seq<Pair>)
    requires LegalPairs(ps) && ps != []
    ensures UpsertFile(UpsertFile(content, ps), ps) == UpsertFile(content, ps)
       <==> forall i :: 0 <= i < |FileLines(content)| ==> Stable(FileLines(content)[i], ps)
  {
    var raw := FileLines(content);
    var once := StripEach(raw, |ps|);
    var file := UpsertFile(content, ps);
    UpsertFileLines(content, ps);
    UpsertFileLines(file, ps);
    MergedStripped(once, ps, |ps|);
    MergedSettled(StripEach(once, |ps|), ps);
    MergedStable(raw, ps);
    assert FileLines(file) == Merged(once, ps);
    assert FileLines(UpsertFile(file, ps)) == Merged(StripEach(once, |ps|), ps);
  }

  lemma {:induction false} RawPlain(s: string, i: nat)
    requires '\r' !in s && i < |RawLines(s)|
    ensures TrailingCrs(RawLines(s)[i]) == 0
    decreases |s|
  {
    var k := IndexOf(s, '\n');
    if k < |s| {
      if i == 0 {
        assert k > 0 ==> s[..k][k - 1] == s[k - 1];
      } else {
        RawPlain(s[k + 1..], i - 1);
      }
    }
  }

  /** So without carriage returns a second run never changes anything. */
  lemma Fixpoint(content: string, ps: seq<Pair>)
    requires '\r' !in content && LegalPairs(ps)
    ensures UpsertFile(UpsertFile(content, ps), ps) == UpsertFile(content, ps)
  {
    if ps != [] {
      FixpointExact(content, ps);
      forall i | 0 <= i < |FileLines(content)| ensures Stable(FileLines(content)[i], ps) {
        RawPlain(WithNewline(content), i);
      }
    }
  }

  lemma Unstable(p: Pair)
    requires LegalPair(p)
    ensures !Stable("\r\r", [p])
  {
    assert "\r\r"[..1] == "\r" && TrailingCrs("\r") >= 1;
    assert Prefix(p)[|p.key|] == '=';
  }

  /** With two carriage returns at the end of a line and one key it does. */
  lemma CarriageReturnsDrift(p: Pair)
    requires LegalPair(p)
    ensures var once := UpsertFile("\r\r" + "\n" + "", [p]);
            UpsertFile(once, [p]) != once
  {
    var content := "\r\r" + "\n" + "";
    RawCons("\r\r", "");
    Unstable(p);
    assert FileLines(content)[0] == "\r\r";
    FixpointExact(content, [p]);
  }
}
