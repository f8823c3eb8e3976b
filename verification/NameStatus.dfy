/** Reading `git diff --name-status -z`: fields ended by NUL, two paths for renames and copies. */
module NameStatus {
  import opened Options
  import opened Text
  import opened LocRatchet

  /** `output.split("\0")` */
  function Split(s: string): (fields: seq<string>)
    ensures |fields| > 0
  {
    if s == "" then [""]
    else
      var rest := Split(s[1..]);
      if s[0] == '\0' then [""] + rest else [[s[0]] + rest[0]] + rest[1..]
  }

  function StripLeading(s: string): string { if "./" <= s then s[2..] else s }

  function StripTrailing(s: string): string { if s != "" && s[|s| - 1] == '/' then s[..|s| - 1] else s }

  function NormalizePath(path: string): string { StripTrailing(StripLeading(ReplaceAll(path, '\\', "/"))) }

  function StatusOf(letter: char): Status {
    match letter
    case 'A' => Added
    case 'D' => Deleted
    case 'R' => Renamed
    case 'C' => Copied
    case _ => Other(letter)
  }

  predicate HasTwoPaths(status: Status) { status.Renamed? || status.Copied? }

  function Cons(e: DiffEntry, rest: Result<seq<DiffEntry>, string>): Result<seq<DiffEntry>, string> {
    if rest.Err? then rest else Ok([e] + rest.value)
  }

  /** An empty status field is skipped; a missing or empty path is an error that names the status. */
  function ParseFields(fields: seq<string>): Result<seq<DiffEntry>, string> {
    if fields == [] then Ok([])
    else if fields[0] == "" then ParseFields(fields[1..])
    else
      var status := StatusOf(fields[0][0]);
      if HasTwoPaths(status) then
        if |fields| < 3 || fields[1] == "" || fields[2] == "" then Err(fields[0])
        else Cons(DiffEntry(status, NormalizePath(fields[2]), Some(NormalizePath(fields[1]))), ParseFields(fields[3..]))
      else if |fields| < 2 || fields[1] == "" then Err(fields[0])
      else Cons(DiffEntry(status, NormalizePath(fields[1]), None), ParseFields(fields[2..]))
  }

  function Parse(output: string): Result<seq<DiffEntry>, string> { ParseFields(Split(output)) }

  // ----- what Git prints

  predicate NoNul(s: string) { forall i :: 0 <= i < |s| ==> s[i] != '\0' }

  predicate IsPath(p: string) { p != "" && NoNul(p) }

  /** An entry as Git reports it: renames and copies, and only they, have two paths. */
  predicate IsReported(e: DiffEntry) {
    && IsPath(e.path) && (HasTwoPaths(e.status) <==> e.previousPath.Some?)
    && (e.previousPath.Some? ==> IsPath(e.previousPath.value))
    && (e.status.Other? ==> StatusOf(e.status.letter) == e.status && e.status.letter != '\0')
  }

  /** The entry as it is read: with its paths normalised. */
  function Normalized(e: DiffEntry): DiffEntry {
    DiffEntry(e.status, NormalizePath(e.path), if e.previousPath.Some? then Some(NormalizePath(e.previousPath.value)) else None)
  }

  function AllNormalized(entries: seq<DiffEntry>): seq<DiffEntry> {
    seq(|entries|, k requires 0 <= k < |entries| => Normalized(entries[k]))
  }

  function Letter(status: Status): char {
    match status
    case Added => 'A'
    case Deleted => 'D'
    case Renamed => 'R'
    case Copied => 'C'
    case Other(letter) => letter
  }

  /** The fields of an entry; `score` is the similarity Git appends to the letter. */
  function Fields(e: DiffEntry, score: string): seq<string> {
    [[Letter(e.status)] + score] + (if e.previousPath.Some? then [e.previousPath.value] else []) + [e.path]
  }

  function PrintFields(fields: seq<string>): string {
    if fields == [] then "" else fields[0] + "\0" + PrintFields(fields[1..])
  }

  /** The fields of a whole report, each entry with a score of its own, empty where Git prints none. */
  function AllFields(entries: seq<DiffEntry>, scores: seq<string>): seq<string>
    requires |scores| == |entries|
  {
    if entries == [] then [] else Fields(entries[0], scores[0]) + AllFields(entries[1..], scores[1..])
  }

  // ----- reading undoes printing

  lemma {:induction false} SplitField(field: string, rest: string)
    requires NoNul(field)
    ensures Split(field + "\0" + rest) == [field] + Split(rest)
    decreases |field|
  {
    var s := field + "\0" + rest;
    if field == "" {
      assert s[0] == '\0' && s[1..] == rest;
    } else {
      assert s[0] == field[0] && s[1..] == field[1..] + "\0" + rest;
      SplitField(field[1..], rest);
      assert [field[0]] + field[1..] == field;
      assert ([field[1..]] + Split(rest))[1..] == Split(rest);
    }
  }

  lemma {:induction false} SplitPrinted(fields: seq<string>)
    requires AllNoNul(fields)
    ensures Split(PrintFields(fields)) == fields + [""]
  {
    if fields != [] {
      SplitPrinted(fields[1..]);
      SplitField(fields[0], PrintFields(fields[1..]));
      assert [fields[0]] + (fields[1..] + [""]) == fields + [""];
    }
  }

  lemma ParseOne(e: DiffEntry, score: string, rest: seq<string>)
    requires IsReported(e)
    ensures ParseFields(Fields(e, score) + rest) == Cons(Normalized(e), ParseFields(rest))
  {
    var fields := Fields(e, score) + rest;
    assert fields[0] == [Letter(e.status)] + score && fields[0][0] == Letter(e.status);
    assert StatusOf(Letter(e.status)) == e.status;
    if e.previousPath.Some? {
      assert fields[1] == e.previousPath.value && fields[2] == e.path && fields[3..] == rest;
    } else {
      assert fields[1] == e.path && fields[2..] == rest;
    }
  }

  lemma {:induction false} ParseAll(entries: seq<DiffEntry>, scores: seq<string>)
    requires |scores| == |entries| && forall k :: 0 <= k < |entries| ==> IsReported(entries[k])
    ensures ParseFields(AllFields(entries, scores) + [""]) == Ok(AllNormalized(entries))
  {
    if entries == [] {
      assert AllFields(entries, scores) + [""] == [""] && [""][1..] == [];
    } else {
      ParseAll(entries[1..], scores[1..]);
      var rest := AllFields(entries[1..], scores[1..]) + [""];
      assert AllFields(entries, scores) + [""] == Fields(entries[0], scores[0]) + rest;
      ParseOne(entries[0], scores[0], rest);
      assert [Normalized(entries[0])] + AllNormalized(entries[1..]) == AllNormalized(entries);
    }
  }

  predicate AllNoNul(fields: seq<string>) { forall k :: 0 <= k < |fields| ==> NoNul(fields[k]) }

  lemma {:induction false} AllFieldsNoNul(entries: seq<DiffEntry>, scores: seq<string>)
    requires |scores| == |entries| && AllNoNul(scores) && forall k :: 0 <= k < |entries| ==> IsReported(entries[k])
    ensures AllNoNul(AllFields(entries, scores))
  {
    if entries != [] {
      AllFieldsNoNul(entries[1..], scores[1..]);
    }
  }

  /** Whatever list of changes Git reports, with whatever paths and similarity scores, reading its output gives that list back
      with every path normalised; the list itself exactly if the paths are. */
  lemma ParseReadsReport(entries: seq<DiffEntry>, scores: seq<string>)
    requires |scores| == |entries| && AllNoNul(scores) && forall k :: 0 <= k < |entries| ==> IsReported(entries[k])
    ensures Parse(PrintFields(AllFields(entries, scores))) == Ok(AllNormalized(entries))
    ensures Parse(PrintFields(AllFields(entries, scores))) == Ok(entries) <==>
              forall k :: 0 <= k < |entries| ==> Normalized(entries[k]) == entries[k]
  {
    AllFieldsNoNul(entries, scores);
    SplitPrinted(AllFields(entries, scores));
    ParseAll(entries, scores);
    SameListExactly(entries);
  }

  lemma SameListExactly(entries: seq<DiffEntry>)
    ensures AllNormalized(entries) == entries <==> forall k :: 0 <= k < |entries| ==> Normalized(entries[k]) == entries[k]
  {
    assert forall k :: 0 <= k < |entries| ==> AllNormalized(entries)[k] == Normalized(entries[k]);
  }

  // ----- malformed reports and normal paths

  lemma {:induction false} ParseFieldsAppend(entries: seq<DiffEntry>, scores: seq<string>, rest: seq<string>)
    requires |scores| == |entries| && forall k :: 0 <= k < |entries| ==> IsReported(entries[k])
    ensures ParseFields(AllFields(entries, scores) + rest) == Prepend(AllNormalized(entries), ParseFields(rest))
  {
    if entries == [] {
      assert AllFields(entries, scores) + rest == rest && AllNormalized(entries) == [];
      PrependNothing(ParseFields(rest));
    } else {
      ParseFieldsAppend(entries[1..], scores[1..], rest);
      var more := AllFields(entries[1..], scores[1..]) + rest;
      assert AllFields(entries, scores) + rest == Fields(entries[0], scores[0]) + more;
      ParseOne(entries[0], scores[0], more);
      assert [Normalized(entries[0])] + AllNormalized(entries[1..]) == AllNormalized(entries);
      PrependFirst(Normalized(entries[0]), AllNormalized(entries[1..]), ParseFields(rest));
    }
  }

  lemma PrependNothing(rest: Result<seq<DiffEntry>, string>)
    ensures Prepend([], rest) == rest
  {
    if rest.Ok? {
      assert [] + rest.value == rest.value;
    }
  }

  lemma PrependFirst(e: DiffEntry, entries: seq<DiffEntry>, rest: Result<seq<DiffEntry>, string>)
    ensures Cons(e, Prepend(entries, rest)) == Prepend([e] + entries, rest)
  {
    if rest.Ok? {
      assert [e] + (entries + rest.value) == [e] + entries + rest.value;
    }
  }

  /** The fields break off inside an entry: a status without its path, or without one of its two. */
  predicate BreaksOff(status: string, paths: seq<string>) {
    && status != "" && AllNoNul([status] + paths) && (forall k :: 0 <= k < |paths| ==> paths[k] != "")
    && |paths| < if status[0] == 'R' || status[0] == 'C' then 2 else 1
  }

  /** A report that breaks off inside an entry is an error that names the entry's status, whatever came before. */
  lemma BrokenReportFails(entries: seq<DiffEntry>, scores: seq<string>, status: string, paths: seq<string>)
    requires |scores| == |entries| && AllNoNul(scores) && forall k :: 0 <= k < |entries| ==> IsReported(entries[k])
    requires BreaksOff(status, paths)
    ensures Parse(PrintFields(AllFields(entries, scores) + ([status] + paths))) == Err(status)
  {
    var broken := [status] + paths;
    AllFieldsNoNul(entries, scores);
    SplitPrinted(AllFields(entries, scores) + broken);
    assert AllFields(entries, scores) + broken + [""] == AllFields(entries, scores) + (broken + [""]);
    ParseFieldsAppend(entries, scores, broken + [""]);
    var fields := broken + [""];
    assert fields[0] == status && fields[|paths| + 1] == "";
  }

  predicate IsNormal(path: string) {
    path != "" && Lacks(path, '\\') && path != "." && !("./" <= path) && path[|path| - 1] != '/'
  }

  lemma NormalizeSlashes(path: string)
    requires Lacks(path, '\\')
    ensures NormalizePath(path) == StripTrailing(StripLeading(path))
  {
    ReplaceNothing(path, '\\', "/");
  }

  lemma StripsTrailing(path: string)
    requires IsNormal(path)
    ensures StripTrailing(path) == path && StripTrailing(path + "/") == path
    ensures StripLeading(path) == path && StripLeading(path + "/") == path + "/"
  {
    assert (path + "/")[..|path|] == path;
    assert |path| > 1 ==> (path + "/")[..2] == path[..2];
  }

  lemma StripsLeading(path: string)
    ensures StripLeading("./" + path) == path
  {
    assert ("./" + path)[2..] == path;
  }

  /** Backslashes become slashes, a leading `./` and a trailing slash go, and any other path stays as it is. */
  lemma PathsAreNormalized(path: string)
    requires IsNormal(path)
    ensures NormalizePath(path) == path && NormalizePath(ReplaceAll(path, '/', "\\")) == path
    ensures NormalizePath("./" + path) == path && NormalizePath(path + "/") == path && NormalizePath("./" + (path + "/")) == path
  {
    NormalizeSlashes(path);
    NormalizeSlashes("./" + path);
    NormalizeSlashes(path + "/");
    NormalizeSlashes("./" + (path + "/"));
    StripsTrailing(path);
    StripsLeading(path);
    StripsLeading(path + "/");
    ReplacedBack(path);
  }

  lemma {:induction false} ReplacedBack(path: string)
    requires Lacks(path, '\\')
    ensures ReplaceAll(ReplaceAll(path, '/', "\\"), '\\', "/") == path
  {
    if path != "" {
      ReplacedBack(path[1..]);
      var back := ReplaceAll(path, '/', "\\");
      assert back[0] == (if path[0] == '/' then '\\' else path[0]) && back[1..] == ReplaceAll(path[1..], '/', "\\");
      assert path == [path[0]] + path[1..];
    }
  }

  // ----- the code

  method ParseNameStatusZ(output: string) returns (result: Result<seq<DiffEntry>, string>)
    ensures result == Parse(output)
  {
    var fields := Split(output);
    var entries: seq<DiffEntry> := [];
    var index := 0;
    assert ParseFields(fields).Ok? ==> [] + ParseFields(fields).value == ParseFields(fields).value;
    assert fields[0..] == fields;
    while index < |fields|
      invariant 0 <= index <= |fields|
      invariant ParseFields(fields) == Prepend(entries, ParseFields(fields[index..]))
    {
      var statusField := fields[index];
      assert fields[index..][0] == statusField && fields[index..][1..] == fields[index + 1..];
      if statusField == "" {
        index := index + 1;
        continue;
      }
      var status := StatusOf(statusField[0]);
      if HasTwoPaths(status) {
        if index + 2 >= |fields| || fields[index + 1] == "" || fields[index + 2] == "" {
          return Err(statusField);
        }
        var entry := DiffEntry(status, NormalizePath(fields[index + 2]), Some(NormalizePath(fields[index + 1])));
        assert fields[index..][3..] == fields[index + 3..];
        PrependCons(entries, entry, ParseFields(fields[index + 3..]));
        entries := entries + [entry];
        index := index + 3;
      } else {
        if index + 1 >= |fields| || fields[index + 1] == "" {
          return Err(statusField);
        }
        var entry := DiffEntry(status, NormalizePath(fields[index + 1]), None);
        assert fields[index..][2..] == fields[index + 2..];
        PrependCons(entries, entry, ParseFields(fields[index + 2..]));
        entries := entries + [entry];
        index := index + 2;
      }
    }
    assert fields[|fields|..] == [] && entries + [] == entries;
    return Ok(entries);
  }

  function Prepend(entries: seq<DiffEntry>, rest: Result<seq<DiffEntry>, string>): Result<seq<DiffEntry>, string> {
    if rest.Err? then rest else Ok(entries + rest.value)
  }

  lemma PrependCons(entries: seq<DiffEntry>, e: DiffEntry, rest: Result<seq<DiffEntry>, string>)
    ensures Prepend(entries, Cons(e, rest)) == Prepend(entries + [e], rest)
  {
    if rest.Ok? {
      assert entries + ([e] + rest.value) == entries + [e] + rest.value;
    }
  }
}
