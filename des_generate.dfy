/** Walking the .des folder and writing the C++ table
    (parse_des.py:21-28, 110-184). The directory walk is given as its
    sequence of directories, each with its path and file names in the
    order `os.walk` yields them; reading a file and the MONS/KMONS line
    scan are parameters. */
module DesGenerate {
  import opened Text
  import opened DesCleanup
  import opened DesParse

  const IgnoreDesFiles: seq<string> := ["test.des"]
  const IgnoreDesSubfolders: seq<string> := ["builder", "zotdef", "tutorial"]

  /** One directory of the walk. */
  datatype WalkDir = WalkDir(path: string, files: seq<string>)

  /** A (directory path, file name) pair. */
  type Candidate = (string, string)

  /** `dirpath.split(DIR_DELIM)[-1]`. */
  function ThisDir(path: string, delim: char): string {
    LastPiece(path, delim)
  }

  predicate IgnoredDir(path: string, delim: char) {
    ThisDir(path, delim) in IgnoreDesSubfolders
  }

  function Pairs(path: string, files: seq<string>): (r: seq<Candidate>)
    ensures |r| == |files|
    ensures forall i :: 0 <= i < |files| ==> r[i] == (path, files[i])
  {
    if files == [] then [] else Pairs(path, files[..|files| - 1]) + [(path, files[|files| - 1])]
  }

  /** The files the walk offers from directories that are not ignored. */
  function Candidates(walk: seq<WalkDir>, delim: char): seq<Candidate>
  {
    if walk == [] then []
    else
      var d := walk[|walk| - 1];
      Candidates(walk[..|walk| - 1], delim) + (if IgnoredDir(d.path, delim) then [] else Pairs(d.path, d.files))
  }

  function Names(cs: seq<Candidate>): (r: seq<string>)
    ensures |r| == |cs|
    ensures forall i :: 0 <= i < |cs| ==> r[i] == cs[i].1
  {
    if cs == [] then [] else Names(cs[..|cs| - 1]) + [cs[|cs| - 1].1]
  }

  /** The per-file tests: not done yet, not ignored, a .des file. */
  predicate Wanted(fname: string, done: seq<string>) {
    fname !in done && fname !in IgnoreDesFiles && EndsWith(fname, ".des")
  }

  /** The candidates processed, in order; `done` is their names. */
  function Chosen(cs: seq<Candidate>): seq<Candidate>
  {
    if cs == [] then []
    else
      var c := Chosen(cs[..|cs| - 1]);
      var e := cs[|cs| - 1];
      if Wanted(e.1, Names(c)) then c + [e] else c
  }

  lemma ChosenSnoc(cs: seq<Candidate>, e: Candidate)
    ensures Chosen(cs + [e]) == if Wanted(e.1, Names(Chosen(cs))) then Chosen(cs) + [e] else Chosen(cs)
  {
    assert (cs + [e])[..|cs|] == cs;
  }

  /** Every file processed lies in a directory that is not ignored, is a
      .des file other than test.des, and was offered by the walk. */
  lemma {:induction false} ChosenAreWanted(cs: seq<Candidate>)
    ensures forall i :: 0 <= i < |Chosen(cs)| ==>
      Chosen(cs)[i] in cs && Chosen(cs)[i].1 != "test.des" && EndsWith(Chosen(cs)[i].1, ".des")
  {
    if cs != [] {
      var init := cs[..|cs| - 1];
      ChosenAreWanted(init);
      assert forall x :: x in init ==> x in cs;
    }
  }

  /** No file name is processed twice. */
  lemma {:induction false} ChosenDistinct(cs: seq<Candidate>)
    ensures forall i, j :: 0 <= i < j < |Chosen(cs)| ==> Chosen(cs)[i].1 != Chosen(cs)[j].1
  {
    if cs != [] {
      ChosenDistinct(cs[..|cs| - 1]);
    }
  }

  /** Every offered .des file other than test.des is processed under its
      name, from this directory or an earlier one. */
  lemma {:induction false} ChosenComplete(cs: seq<Candidate>)
    ensures forall i :: 0 <= i < |cs| && cs[i].1 != "test.des" && EndsWith(cs[i].1, ".des") ==>
      cs[i].1 in Names(Chosen(cs))
  {
    if cs != [] {
      var init := cs[..|cs| - 1];
      ChosenComplete(init);
      var c := Chosen(init);
      assert forall x :: x in Names(c) ==> x in Names(Chosen(cs)) by {
        if !Wanted(cs[|cs| - 1].1, Names(c)) {
          assert Chosen(cs) == c;
        } else {
          assert Names(Chosen(cs)) == Names(c) + [cs[|cs| - 1].1];
        }
      }
      assert forall i :: 0 <= i < |init| ==> init[i] == cs[i];
    }
  }

  /** A candidate comes from a directory of the walk that is not ignored,
      and every file of such a directory is a candidate. */
  lemma {:induction false} CandidatesIff(walk: seq<WalkDir>, delim: char, e: Candidate)
    ensures e in Candidates(walk, delim) <==>
      exists d :: 0 <= d < |walk| && walk[d].path == e.0 && !IgnoredDir(e.0, delim) && e.1 in walk[d].files
  {
    if walk != [] {
      var init := walk[..|walk| - 1];
      var w := walk[|walk| - 1];
      CandidatesIff(init, delim, e);
      if e in Pairs(w.path, w.files) && !IgnoredDir(w.path, delim) {
        var i :| 0 <= i < |w.files| && Pairs(w.path, w.files)[i] == e;
        assert walk[|walk| - 1].path == e.0 && e.1 in walk[|walk| - 1].files;
      }
      if exists d :: 0 <= d < |walk| && walk[d].path == e.0 && !IgnoredDir(e.0, delim) && e.1 in walk[d].files {
        var d :| 0 <= d < |walk| && walk[d].path == e.0 && !IgnoredDir(e.0, delim) && e.1 in walk[d].files;
        if d < |init| {
          assert init[d] == walk[d];
        } else {
          var i :| 0 <= i < |w.files| && w.files[i] == e.1;
          assert Pairs(w.path, w.files)[i] == e;
        }
      }
      if exists d :: 0 <= d < |init| && init[d].path == e.0 && !IgnoredDir(e.0, delim) && e.1 in init[d].files {
        var d :| 0 <= d < |init| && init[d].path == e.0 && !IgnoredDir(e.0, delim) && e.1 in init[d].files;
        assert walk[d] == init[d];
      }
    }
  }

  // ---------------------------------------------------------------------
  // From a file to monster lines

  /** `"\n".join([line.strip() for line in lines])` followed by the two
      newline cleanups. */
  function FileData(lines: seq<string>): string
  {
    CleanupData(Join(seq(|lines|, i requires 0 <= i < |lines| => Strip(lines[i])), "\n"))
  }

  /** The monster specs of the MONS/KMONS lines found, in order. */
  function ParseAll(found: seq<string>): seq<string>
  {
    if found == [] then [] else ParseAll(found[..|found| - 1]) + ParsedMonsLine(found[|found| - 1])
  }

  /** The monster specs of the processed files, in order. */
  function MonsterLines(chosen: seq<Candidate>, read: (string, string) -> seq<string>,
                        findMons: string -> seq<string>): seq<string>
  {
    if chosen == [] then []
    else
      var e := chosen[|chosen| - 1];
      MonsterLines(chosen[..|chosen| - 1], read, findMons) + ParseAll(findMons(FileData(read(e.0, e.1))))
  }

  /** What `generate_monster_lines` returns. */
  function Generated(walk: seq<WalkDir>, delim: char, read: (string, string) -> seq<string>,
                     findMons: string -> seq<string>, cull: bool): seq<string>
  {
    var lines := MonsterLines(Chosen(Candidates(walk, delim)), read, findMons);
    if cull then Named(lines) else lines
  }

  /** No generated entry holds '/' or ',', and after culling every entry
      names its monster. */
  lemma GeneratedEntries(walk: seq<WalkDir>, delim: char, read: (string, string) -> seq<string>,
                         findMons: string -> seq<string>, cull: bool)
    ensures forall k :: 0 <= k < |Generated(walk, delim, read, findMons, cull)| ==>
      var m := Generated(walk, delim, read, findMons, cull)[k];
      '/' !in m && ',' !in m && (cull ==> Contains(m, "name"))
  {
    var lines := MonsterLines(Chosen(Candidates(walk, delim)), read, findMons);
    MonsterLinesClean(Chosen(Candidates(walk, delim)), read, findMons);
    if cull {
      NamedEntries(lines);
    }
  }

  /** Every element of a culled list is named and comes from the list. */
  lemma {:induction false} NamedEntries(ms: seq<string>)
    ensures forall k :: 0 <= k < |Named(ms)| ==> Named(ms)[k] in ms && Contains(Named(ms)[k], "name")
  {
    if ms != [] {
      var init := ms[..|ms| - 1];
      NamedEntries(init);
      assert forall x :: x in init ==> x in ms;
    }
  }

  predicate Clean(ms: seq<string>) {
    forall k :: 0 <= k < |ms| ==> '/' !in ms[k] && ',' !in ms[k]
  }

  lemma {:induction false} ParseAllClean(found: seq<string>)
    ensures Clean(ParseAll(found))
  {
    if found != [] {
      ParseAllClean(found[..|found| - 1]);
      ParsedMonsLineShape(found[|found| - 1]);
    }
  }

  lemma {:induction false} MonsterLinesClean(chosen: seq<Candidate>, read: (string, string) -> seq<string>,
                                             findMons: string -> seq<string>)
    ensures Clean(MonsterLines(chosen, read, findMons))
  {
    if chosen != [] {
      var e := chosen[|chosen| - 1];
      MonsterLinesClean(chosen[..|chosen| - 1], read, findMons);
      ParseAllClean(findMons(FileData(read(e.0, e.1))));
    }
  }

  lemma ParseAllSnoc(found: seq<string>, i: nat)
    requires i < |found|
    ensures ParseAll(found[..i + 1]) == ParseAll(found[..i]) + ParsedMonsLine(found[i])
  {
    assert found[..i + 1][..i] == found[..i];
  }

  lemma PairsSnoc(prior: seq<Candidate>, path: string, files: seq<string>, j: nat)
    requires j < |files|
    ensures prior + Pairs(path, files[..j + 1]) == (prior + Pairs(path, files[..j])) + [(path, files[j])]
  {
    assert files[..j + 1][..j] == files[..j];
    assert Pairs(path, files[..j + 1]) == Pairs(path, files[..j]) + [(path, files[j])];
  }

  lemma CandidatesSnoc(walk: seq<WalkDir>, delim: char, d: nat)
    requires d < |walk|
    ensures Candidates(walk[..d + 1], delim)
         == Candidates(walk[..d], delim) + (if IgnoredDir(walk[d].path, delim) then [] else Pairs(walk[d].path, walk[d].files))
  {
    assert walk[..d + 1][..d] == walk[..d];
  }

  /** One matched line parsed and appended to the lines parsed so far. */
  method ParseNext(found: seq<string>, i: nat, parsedSoFar: seq<string>) returns (parsedSoFar': seq<string>)
    requires i < |found|
    requires parsedSoFar == ParseAll(found[..i])
    ensures parsedSoFar' == ParseAll(found[..i + 1])
  {
    var parsed := ParseMonsLine(found[i]);
    ParseAllSnoc(found, i);
    parsedSoFar' := parsedSoFar + parsed;
  }

  /** `for line in FIND_MONS_LINES.findall(data): monster_lines.extend(parse_mons_line(line))`. */
  method ParseFile(found: seq<string>, monsterLines: seq<string>) returns (monsterLines': seq<string>)
    ensures monsterLines' == monsterLines + ParseAll(found)
  {
    var parsed: seq<string> := [];
    assert found[..0] == [];
    var i := 0;
    while i < |found|
      invariant 0 <= i <= |found|
      invariant parsed == ParseAll(found[..i])
    {
      parsed := ParseNext(found, i, parsed);
      i := i + 1;
    }
    assert found[..i] == found;
    monsterLines' := monsterLines + parsed;
  }

  /** The body of the inner loop for one file name. */
  method VisitFile(path: string, fname: string, done: seq<string>, monsterLines: seq<string>,
                   read: (string, string) -> seq<string>, findMons: string -> seq<string>,
                   ghost prior: seq<Candidate>)
    returns (done': seq<string>, monsterLines': seq<string>)
    requires done == Names(Chosen(prior))
    requires monsterLines == MonsterLines(Chosen(prior), read, findMons)
    ensures done' == Names(Chosen(prior + [(path, fname)]))
    ensures monsterLines' == MonsterLines(Chosen(prior + [(path, fname)]), read, findMons)
  {
    ChosenSnoc(prior, (path, fname));
    done', monsterLines' := done, monsterLines;
    if fname in done {
      return;
    }
    if fname in IgnoreDesFiles {
      return;
    }
    if !EndsWith(fname, ".des") {
      return;
    }
    var data := FileData(read(path, fname));
    monsterLines' := ParseFile(findMons(data), monsterLines);
    done' := done + [fname];
    ghost var c := Chosen(prior) + [(path, fname)];
    assert c[..|c| - 1] == Chosen(prior);
  }

  /** The inner loop over one directory's files. */
  method VisitDir(dir: WalkDir, done: seq<string>, monsterLines: seq<string>,
                  read: (string, string) -> seq<string>, findMons: string -> seq<string>,
                  ghost prior: seq<Candidate>)
    returns (done': seq<string>, monsterLines': seq<string>)
    requires done == Names(Chosen(prior))
    requires monsterLines == MonsterLines(Chosen(prior), read, findMons)
    ensures done' == Names(Chosen(prior + Pairs(dir.path, dir.files)))
    ensures monsterLines' == MonsterLines(Chosen(prior + Pairs(dir.path, dir.files)), read, findMons)
  {
    done', monsterLines' := done, monsterLines;
    ghost var visited := prior;
    assert Pairs(dir.path, dir.files[..0]) == [] && prior + [] == prior;
    var j := 0;
    while j < |dir.files|
      invariant 0 <= j <= |dir.files|
      invariant visited == prior + Pairs(dir.path, dir.files[..j])
      invariant done' == Names(Chosen(visited))
      invariant monsterLines' == MonsterLines(Chosen(visited), read, findMons)
    {
      done', monsterLines' := VisitFile(dir.path, dir.files[j], done', monsterLines', read, findMons, visited);
      PairsSnoc(prior, dir.path, dir.files, j);
      visited := visited + [(dir.path, dir.files[j])];
      j := j + 1;
    }
    assert dir.files[..j] == dir.files;
  }

  /** `generate_monster_lines`. */
  method GenerateMonsterLines(walk: seq<WalkDir>, delim: char, read: (string, string) -> seq<string>,
                              findMons: string -> seq<string>, cull: bool)
    returns (r: seq<string>)
    ensures r == Generated(walk, delim, read, findMons, cull)
  {
    var done: seq<string> := [];
    var monsterLines: seq<string> := [];
    var d := 0;
    while d < |walk|
      invariant 0 <= d <= |walk|
      invariant done == Names(Chosen(Candidates(walk[..d], delim)))
      invariant monsterLines == MonsterLines(Chosen(Candidates(walk[..d], delim)), read, findMons)
    {
      CandidatesSnoc(walk, delim, d);
      var thisDir := LastPiece(walk[d].path, delim);
      if thisDir in IgnoreDesSubfolders {
        assert Candidates(walk[..d], delim) + [] == Candidates(walk[..d], delim);
      } else {
        done, monsterLines := VisitDir(walk[d], done, monsterLines, read, findMons, Candidates(walk[..d], delim));
      }
      d := d + 1;
    }
    assert walk[..d] == walk;
    if cull {
      r := CullUnnamedMonsters(monsterLines);
    } else {
      r := monsterLines;
    }
  }

  // ---------------------------------------------------------------------
  // publish_monsters_as_cpp

  const MonsListName: string := "vault_monsters"

  const FileHeader: string :=
    "/**\n * @file vault_monster_data.cc\n * @author Jude Brown <bookofjude@users.sourceforge.net>\n"
    + " * @version 1\n *\n * @section DESCRIPTION\n *\n"
    + " * This file is automatically generated. Any changes to it will be discarded.\n *\n**/\n"

  const FunctionDoc: string :=
    "/**\n * Return a vector of vault-defined monster specification strings.\n *\n"
    + " * @return A vector of std::strings.\n *\n**/\n"

  /** The `reserve` line for a list of `n` specs. */
  function ReserveLine(n: nat): string {
    "    " + MonsListName + ".reserve(" + NatToString(n) + ");\n"
  }

  const PushPrefix: string := "    " + MonsListName + ".push_back(\""
  const PushSuffix: string := "\");\n"

  /** The `push_back` line for one spec, double quotes turned into single
      quotes. */
  function PushLine(m: string): string {
    PushPrefix + ReplaceChar(m, '"', '\'') + PushSuffix
  }

  function PushLines(ms: seq<string>): (r: seq<string>)
    ensures |r| == |ms|
    ensures forall k :: 0 <= k < |ms| ==> r[k] == PushLine(ms[k])
  {
    if ms == [] then [] else PushLines(ms[..|ms| - 1]) + [PushLine(ms[|ms| - 1])]
  }

  /** The chunks `publish_monsters_as_cpp` writes, one per `write` call. */
  function CppChunks(ms: seq<string>): seq<string>
  {
    [FileHeader, "#include \"AppHdr.h\"\n\n", FunctionDoc,
     "std::vector<std::string> get_vault_monsters ()\n", "{\n",
     "    std::vector<std::string> " + MonsListName + ";\n",
     ReserveLine(|ms|)]
    + PushLines(ms)
    + ["    return " + MonsListName + ";\n", "}\n"]
  }

  /** `publish_monsters_as_cpp`, writing to a sequence of chunks. */
  method PublishMonstersAsCpp(ms: seq<string>) returns (out: seq<string>)
    ensures out == CppChunks(ms)
  {
    out := [FileHeader];
    out := out + ["#include \"AppHdr.h\"\n\n"];
    out := out + [FunctionDoc];
    out := out + ["std::vector<std::string> get_vault_monsters ()\n"];
    out := out + ["{\n"];
    out := out + ["    std::vector<std::string> " + MonsListName + ";\n"];
    out := out + [ReserveLine(|ms|)];
    ghost var header := out;
    var i := 0;
    while i < |ms|
      invariant 0 <= i <= |ms|
      invariant out == header + PushLines(ms[..i])
    {
      assert ms[..i + 1][..i] == ms[..i];
      out := out + [PushLine(ms[i])];
      i := i + 1;
    }
    assert ms[..i] == ms;
    out := out + ["    return " + MonsListName + ";\n"];
    out := out + ["}\n"];
  }

  /** The reserve count is the list length, and there is one push_back
      per spec in order, between the fixed header and footer. */
  lemma CppChunksShape(ms: seq<string>)
    ensures |CppChunks(ms)| == |ms| + 9
    ensures CppChunks(ms)[6] == ReserveLine(|ms|)
    ensures forall k :: 0 <= k < |ms| ==> CppChunks(ms)[7 + k] == PushLine(ms[k])
    ensures CppChunks(ms)[|ms| + 8] == "}\n"
  {
  }

  /** The count written in the reserve line reads back as the length. */
  lemma ReserveReadsBack(n: nat)
    ensures var line := ReserveLine(n);
      var pre := "    " + MonsListName + ".reserve(";
      |line| == |pre| + |NatToString(n)| + 3
      && AllDigits(line[|pre|..|line| - 3])
      && ParseNat(line[|pre|..|line| - 3]) == n
  {
    var pre := "    " + MonsListName + ".reserve(";
    var line := ReserveLine(n);
    assert line == pre + NatToString(n) + ");\n";
    assert line[|pre|..|line| - 3] == NatToString(n);
    ParseNatToString(n);
  }

  /** The string literal of a push_back line holds no double quote, and
      it is the spec itself when the spec had none. */
  lemma PushLineLiteral(m: string)
    ensures var line := PushLine(m);
      var lit := line[|PushPrefix|..|line| - |PushSuffix|];
      lit == ReplaceChar(m, '"', '\'')
      && '"' !in lit
      && ('"' !in m ==> lit == m)
  {
    var line := PushLine(m);
    var lit := ReplaceChar(m, '"', '\'');
    assert line[|PushPrefix|..|line| - |PushSuffix|] == lit;
    if '"' !in m {
      assert forall i :: 0 <= i < |m| ==> lit[i] == m[i];
    }
  }
}
