/** Import paths: how a specifier is joined, normalised and resolved to a file. */
module ImportPaths {
  import opened Wrappers

  predicate StartsWith(s: string, prefix: string) {
    prefix <= s
  }

  predicate EndsWith(s: string, suffix: string) {
    |suffix| <= |s| && s[|s| - |suffix|..] == suffix
  }

  /** The parts of a path between slashes, empty ones included. */
  function Split(path: string): (parts: seq<string>)
    ensures |parts| > 0
  {
    if path == "" then [""]
    else
      var before := Split(path[..|path| - 1]);
      if path[|path| - 1] == '/' then before + [""]
      else before[|before| - 1 := before[|before| - 1] + [path[|path| - 1]]]
  }

  function Join(parts: seq<string>): string {
    if parts == [] then ""
    else if |parts| == 1 then parts[0]
    else Join(parts[..|parts| - 1]) + "/" + parts[|parts| - 1]
  }

  /** One part taken: `.` stays, `..` climbs one, anything else descends. */
  function Take(out: seq<string>, part: string): seq<string> {
    if part == "" || part == "." then out
    else if part == ".." then (if out == [] then out else out[..|out| - 1])
    else out + [part]
  }

  function TakeAll(parts: seq<string>): seq<string> {
    if parts == [] then [] else Take(TakeAll(parts[..|parts| - 1]), parts[|parts| - 1])
  }

  function Normalised(path: string): string {
    Join(TakeAll(Split(path)))
  }

  method Normalise(path: string) returns (r: string)
    ensures r == Normalised(path)
  {
    var parts := Split(path);
    var out: seq<string> := [];
    for i := 0 to |parts|
      invariant out == TakeAll(parts[..i])
    {
      assert parts[..i + 1][..i] == parts[..i];
      var part := parts[i];
      if part == "" || part == "." {
        continue;
      }
      if part == ".." {
        if |out| > 0 {
          out := out[..|out| - 1];
        }
      } else {
        out := out + [part];
      }
    }
    assert parts[..|parts|] == parts;
    r := Join(out);
  }

  /** A part that names a file or a directory: not empty, no slash, not `.` or `..`. */
  predicate IsName(part: string) {
    part != "" && part != "." && part != ".." && '/' !in part
  }

  predicate AreNames(parts: seq<string>) {
    forall i :: 0 <= i < |parts| ==> IsName(parts[i])
  }

  lemma {:induction false} SplitHasNoSlash(path: string)
    ensures forall i :: 0 <= i < |Split(path)| ==> '/' !in Split(path)[i]
  {
    if path != "" {
      SplitHasNoSlash(path[..|path| - 1]);
    }
  }

  lemma {:induction false} TakenAreNames(parts: seq<string>)
    requires forall i :: 0 <= i < |parts| ==> '/' !in parts[i]
    ensures AreNames(TakeAll(parts))
  {
    if parts != [] {
      TakenAreNames(parts[..|parts| - 1]);
    }
  }

  lemma SplitPush(path: string, c: char)
    ensures var before := Split(path);
      Split(path + [c])
      == if c == '/' then before + [""] else before[|before| - 1 := before[|before| - 1] + [c]]
  {
    assert (path + [c])[..|path|] == path;
  }

  lemma {:induction false} SplitAppendPart(path: string, part: string)
    requires '/' !in part
    ensures Split(path + "/" + part) == Split(path) + [part]
  {
    if part == "" {
      assert path + "/" + part == path + ['/'];
      SplitPush(path, '/');
    } else {
      var front, c := part[..|part| - 1], part[|part| - 1];
      assert part == front + [c];
      SplitAppendPart(path, front);
      assert path + "/" + part == (path + "/" + front) + [c];
      SplitPush(path + "/" + front, c);
    }
  }

  lemma {:induction false} SplitOfOne(part: string)
    requires '/' !in part
    ensures Split(part) == [part]
  {
    if part != "" {
      SplitOfOne(part[..|part| - 1]);
      assert part == part[..|part| - 1] + [part[|part| - 1]];
    }
  }

  /** Splitting what was joined gives the parts back. */
  lemma {:induction false} SplitUndoesJoin(parts: seq<string>)
    requires parts != [] && AreNames(parts)
    ensures Split(Join(parts)) == parts
  {
    var last := |parts| - 1;
    if last == 0 {
      SplitOfOne(parts[0]);
    } else {
      SplitUndoesJoin(parts[..last]);
      SplitAppendPart(Join(parts[..last]), parts[last]);
    }
  }

  lemma {:induction false} NamesAreAllTaken(parts: seq<string>)
    requires AreNames(parts)
    ensures TakeAll(parts) == parts
  {
    if parts != [] {
      NamesAreAllTaken(parts[..|parts| - 1]);
    }
  }

  /** A normalised path is made of names alone, and normalising it again changes nothing. */
  lemma {:induction false} NormalisedIsNormal(path: string)
    ensures AreNames(TakeAll(Split(path)))
    ensures Normalised(Normalised(path)) == Normalised(path)
  {
    var parts := TakeAll(Split(path));
    SplitHasNoSlash(path);
    TakenAreNames(Split(path));
    if parts != [] {
      SplitUndoesJoin(parts);
      NamesAreAllTaken(parts);
    } else {
      assert Split("") == [""];
      assert TakeAll([""]) == [] by { assert [""][..0] == []; }
    }
  }

  // ----- Resolution -----

  function LastSlash(path: string): (r: Option<nat>)
    ensures r.Some? ==> r.value < |path|
  {
    if path == "" then None
    else if path[|path| - 1] == '/' then Some(|path| - 1)
    else LastSlash(path[..|path| - 1])
  }

  function Dirname(path: string): string {
    match LastSlash(path)
    case None => ""
    case Some(slash) => path[..slash]
  }

  function JsToTs(base: string): string {
    if EndsWith(base, ".js") then base[..|base| - 3] + ".ts" else base
  }

  function Candidates(base: string): seq<string> {
    [base, base + ".ts", base + ".tsx", base + "/index.ts", base + "/index.tsx", JsToTs(base)]
  }

  function FirstHeld(candidates: seq<string>, files: set<string>): (r: Option<string>)
    ensures r.Some? ==> r.value in files && r.value in candidates
    ensures r.None? ==> forall c :: c in candidates ==> c !in files
  {
    if candidates == [] then None
    else if candidates[0] in files then Some(candidates[0])
    else FirstHeld(candidates[1..], files)
  }

  /** The tracked file a local specifier names; a package or a builtin is not local. */
  function ResolveLocal(from: string, specifier: string, files: set<string>): (r: Option<string>)
    ensures r.Some? ==> r.value in files
  {
    if StartsWith(specifier, "@/") then FirstHeld(Candidates("apps/web/src/" + specifier[2..]), files)
    else if StartsWith(specifier, ".") then FirstHeld(Candidates(Normalised(Dirname(from) + "/" + specifier)), files)
    else None
  }

  // ----- Where a specifier leads -----

  /** The file a module path names: itself, with an extension, its index, or, for `.js`, the `.ts` it is made from. */
  function FileOf(base: string, files: set<string>): Option<string> {
    if base in files then Some(base)
    else if base + ".ts" in files then Some(base + ".ts")
    else if base + ".tsx" in files then Some(base + ".tsx")
    else if base + "/index.ts" in files then Some(base + "/index.ts")
    else if base + "/index.tsx" in files then Some(base + "/index.tsx")
    else if |base| >= 3 && base[|base| - 3..] == ".js" && base[..|base| - 3] + ".ts" in files
    then Some(base[..|base| - 3] + ".ts")
    else None
  }

  lemma FirstHeldStep(candidates: seq<string>, files: set<string>)
    requires candidates != []
    ensures FirstHeld(candidates, files) ==
      if candidates[0] in files then Some(candidates[0]) else FirstHeld(candidates[1..], files)
  {
  }

  lemma FirstIsFileOf(base: string, files: set<string>)
    ensures FirstHeld(Candidates(base), files) == FileOf(base, files)
  {
    var c := Candidates(base);
    FirstHeldStep(c, files);
    assert c[1..] == [base + ".ts", base + ".tsx", base + "/index.ts", base + "/index.tsx", JsToTs(base)];
    FirstHeldStep(c[1..], files);
    assert c[1..][1..] == [base + ".tsx", base + "/index.ts", base + "/index.tsx", JsToTs(base)];
    FirstHeldStep(c[1..][1..], files);
    assert c[1..][1..][1..] == [base + "/index.ts", base + "/index.tsx", JsToTs(base)];
    FirstHeldStep(c[1..][1..][1..], files);
    assert c[1..][1..][1..][1..] == [base + "/index.tsx", JsToTs(base)];
    FirstHeldStep([base + "/index.tsx", JsToTs(base)], files);
    assert [base + "/index.tsx", JsToTs(base)][1..] == [JsToTs(base)];
    FirstHeldStep([JsToTs(base)], files);
    assert [JsToTs(base)][1..] == [];
  }

  function Ups(n: nat): (parts: seq<string>)
    ensures |parts| == n && forall i :: 0 <= i < n ==> parts[i] == ".."
  {
    if n == 0 then [] else Ups(n - 1) + [".."]
  }

  lemma {:induction false} SplitAppend(path: string, parts: seq<string>)
    requires parts != [] && forall i :: 0 <= i < |parts| ==> '/' !in parts[i]
    ensures Split(path + "/" + Join(parts)) == Split(path) + parts
  {
    var n := |parts| - 1;
    if n == 0 {
      SplitAppendPart(path, parts[0]);
    } else {
      SplitAppend(path, parts[..n]);
      var whole := path + "/" + Join(parts[..n]);
      assert path + "/" + Join(parts) == whole + "/" + parts[n];
      SplitAppendPart(whole, parts[n]);
    }
  }

  lemma TakePush(parts: seq<string>, part: string)
    ensures TakeAll(parts + [part]) == Take(TakeAll(parts), part)
  {
    assert (parts + [part])[..|parts|] == parts;
  }

  lemma {:induction false} TakeMore(parts: seq<string>, more: seq<string>)
    requires AreNames(more)
    ensures TakeAll(parts + more) == TakeAll(parts) + more
  {
    hide TakeAll;
    if more == [] {
      assert parts + more == parts;
    } else {
      var front, last := more[..|more| - 1], more[|more| - 1];
      TakeMore(parts, front);
      TakePush(parts + front, last);
      assert parts + more == parts + front + [last] && more == front + [last];
      assert IsName(last);
    }
  }

  lemma {:induction false} TakeUps(parts: seq<string>, ups: nat)
    ensures var out := TakeAll(parts);
      TakeAll(parts + Ups(ups)) == if ups <= |out| then out[..|out| - ups] else []
  {
    hide TakeAll;
    if ups == 0 {
      assert parts + Ups(0) == parts;
    } else {
      TakeUps(parts, ups - 1);
      TakePush(parts + Ups(ups - 1), "..");
      assert parts + Ups(ups) == parts + Ups(ups - 1) + [".."];
    }
  }

  lemma {:induction false} LastSlashIs(front: string, name: string)
    requires '/' !in name
    ensures LastSlash(front + "/" + name) == Some(|front|) && LastSlash(name) == None
  {
    var path := front + "/" + name;
    if name != "" {
      var n := |name| - 1;
      LastSlashIs(front, name[..n]);
      assert path[..|path| - 1] == front + "/" + name[..n];
      assert name[n] in name && path[|path| - 1] == name[n];
    }
  }

  /** The directory of a file is the path of what stands before its name. */
  lemma {:induction false} DirnameOfJoined(dir: seq<string>, name: string)
    requires AreNames(dir) && IsName(name)
    ensures Dirname(Join(dir + [name])) == Join(dir)
  {
    if dir == [] {
      LastSlashIs("", name);
      assert Join([name]) == name;
    } else {
      LastSlashIs(Join(dir), name);
      assert (dir + [name])[..|dir|] == dir;
    }
  }

  /**
   * A relative import is read from its file's own directory: each `..` climbs one directory, none
   * above the root, and the names after them descend.
   */
  lemma {:induction false} RelativeImportClimbs(dir: seq<string>, name: string, dot: bool, ups: nat, down: seq<string>,
                                                files: set<string>)
    requires AreNames(dir) && IsName(name) && AreNames(down) && (dot || ups > 0)
    ensures var specifier := Join((if dot then ["."] else []) + Ups(ups) + down);
      ResolveLocal(Join(dir + [name]), specifier, files)
      == FileOf(Join((if ups <= |dir| then dir[..|dir| - ups] else []) + down), files)
  {
    hide Split, TakeAll, Candidates, FirstHeld, FileOf, Dirname, Join;
    var lead := if dot then ["."] else [];
    var parts := lead + Ups(ups) + down;
    DirnameOfJoined(dir, name);
    PartsTaken(dir, lead, ups, down);
    StartsWithItsFirst(parts);
    FirstIsFileOf(Join((if ups <= |dir| then dir[..|dir| - ups] else []) + down), files);
  }

  lemma {:induction false} PartsTaken(dir: seq<string>, lead: seq<string>, ups: nat, down: seq<string>)
    requires AreNames(dir) && AreNames(down) && (lead == ["."] || (lead == [] && ups > 0))
    ensures var parts := lead + Ups(ups) + down;
      TakeAll(Split(Join(dir) + "/" + Join(parts))) == (if ups <= |dir| then dir[..|dir| - ups] else []) + down
  {
    hide Split, TakeAll, Join;
    var parts, from := lead + Ups(ups) + down, Split(Join(dir));
    SplitAppend(Join(dir), parts);
    TakesTheDirectory(dir, lead);
    TakeUps(from + lead, ups);
    TakeMore(from + lead + Ups(ups), down);
    assert from + parts == from + lead + Ups(ups) + down;
  }

  lemma {:induction false} TakesTheDirectory(dir: seq<string>, lead: seq<string>)
    requires AreNames(dir) && (lead == [] || lead == ["."])
    ensures TakeAll(Split(Join(dir)) + lead) == dir
  {
    var parts := if dir == [] then [""] else dir;
    if dir != [] {
      SplitUndoesJoin(dir);
      NamesAreAllTaken(dir);
    } else {
      assert TakeAll([""]) == [] by { assert [""][..0] == []; }
    }
    assert Split(Join(dir)) == parts;
    if lead == [] {
      assert parts + lead == parts;
    } else {
      assert (parts + lead)[..|parts|] == parts;
    }
  }

  lemma {:induction false} StartsWithItsFirst(parts: seq<string>)
    requires parts != [] && parts[0] != ""
    ensures Join(parts) != "" && Join(parts)[0] == parts[0][0]
  {
    if |parts| > 1 {
      StartsWithItsFirst(parts[..|parts| - 1]);
    }
  }

  /** The alias stands for the web application's sources; anything not relative is no file of the tree. */
  lemma OtherImportsLead(from: string, rest: string, files: set<string>)
    ensures ResolveLocal(from, "@/" + rest, files) == FileOf("apps/web/src/" + rest, files)
    ensures rest != "" && rest[0] != '.' && !(|rest| >= 2 && rest[..2] == "@/") ==> ResolveLocal(from, rest, files) == None
  {
    FirstIsFileOf("apps/web/src/" + rest, files);
    assert ("@/" + rest)[2..] == rest;
    hide Candidates, FirstHeld, FileOf;
  }
}
