/**
 The mirror-and-apply walker, over an abstract directory tree.

 The input root is the list of its entries. Each directory is mirrored at the
 same relative name and recursed into; each regular file whose ASCII-lowercased
 name ends in `.csv` yields a file of the same name holding the flattened
 content; every other entry yields nothing. The output root starts empty.
 */
module Walker {
  import opened Wrappers
  import opened Flattener
  import FlattenerProperties

  /** A directory entry, as the host's listing reports it. */
  datatype Entry =
    | Directory(name: string, entries: seq<Entry>)
    | RegularFile(name: string, content: string)
    | OtherEntry(name: string)   // symbolic link, device, socket, ...

  /** A path relative to a root: the entry names from the root down. */
  type Path = seq<string>

  // ---------------------------------------------------------------------------
  // The `.csv` suffix test, with ASCII case folding
  // ---------------------------------------------------------------------------

  /** An ASCII upper-case letter becomes its lower-case letter; nothing else changes. */
  function LowerAscii(c: char): (r: char)
    ensures !('A' <= r <= 'Z')
    ensures r == c || ('A' <= c <= 'Z' && r == "abcdefghijklmnopqrstuvwxyz"[c as int - 'A' as int])
  {
    if 'A' <= c <= 'Z' then (c as int + 32) as char else c
  }

  /** `s` with every ASCII upper-case letter replaced by its lower-case letter,
      and every other character kept. */
  function ToLower(s: string): (r: string)
    ensures |r| == |s|
    ensures forall i :: 0 <= i < |r| ==> !('A' <= r[i] <= 'Z')
    ensures forall i :: 0 <= i < |s| && !('A' <= s[i] <= 'Z') ==> r[i] == s[i]
    ensures forall i :: 0 <= i < |s| && 'A' <= s[i] <= 'Z' ==>
      r[i] == "abcdefghijklmnopqrstuvwxyz"[s[i] as int - 'A' as int]
  {
    seq(|s|, i requires 0 <= i < |s| => LowerAscii(s[i]))
  }

  predicate EndsWith(s: string, suffix: string) {
    |suffix| <= |s| && s[|s| - |suffix|..] == suffix
  }

  predicate IsCsvName(name: string) {
    EndsWith(ToLower(name), ".csv")
  }

  /** The suffix test accepts exactly the names ending in `.` followed by
      `c`, `s`, `v` in either case. */
  lemma CsvNameCharacterised(name: string)
    ensures IsCsvName(name) <==>
      (4 <= |name|
       && name[|name| - 4] == '.'
       && name[|name| - 3] in {'c', 'C'}
       && name[|name| - 2] in {'s', 'S'}
       && name[|name| - 1] in {'v', 'V'})
  {
    var n := |name|;
    if 4 <= n {
      var low := ToLower(name);
      var tail := low[n - 4..];
      assert tail == [low[n - 4], low[n - 3], low[n - 2], low[n - 1]];
      assert ".csv" == ['.', 'c', 's', 'v'];
    }
  }

  // ---------------------------------------------------------------------------
  // Well-formed trees and lookup by path
  // ---------------------------------------------------------------------------

  function Names(es: seq<Entry>): set<string>
    decreases |es|
  {
    if |es| == 0 then {} else {es[0].name} + Names(es[1..])
  }

  /** No two entries of one directory listing share a name. */
  predicate UniqueNames(es: seq<Entry>)
    decreases |es|
  {
    |es| == 0 || (es[0].name !in Names(es[1..]) && UniqueNames(es[1..]))
  }

  /** Names are unique in every directory of the tree. */
  predicate WellFormed(es: seq<Entry>)
    decreases es
  {
    UniqueNames(es) &&
    forall e :: e in es ==> (e.Directory? ==> WellFormed(e.entries))
  }

  /** The entry of the listing with the given name. */
  function Find(es: seq<Entry>, name: string): (r: Option<Entry>)
    ensures r.Some? ==> r.value in es && r.value.name == name
    ensures r.None? <==> name !in Names(es)
    decreases |es|
  {
    if |es| == 0 then None
    else if es[0].name == name then Some(es[0])
    else Find(es[1..], name)
  }

  /** The entry at a relative path; the empty path names the root, not an entry. */
  function Lookup(es: seq<Entry>, p: Path): Option<Entry>
    decreases |p|
  {
    if |p| == 0 then None
    else
      match Find(es, p[0])
      case None => None
      case Some(e) =>
        if |p| == 1 then Some(e)
        else if e.Directory? then Lookup(e.entries, p[1..])
        else None
  }

  function FileAt(es: seq<Entry>, p: Path): Option<string> {
    match Lookup(es, p)
    case Some(RegularFile(_, c)) => Some(c)
    case _ => None
  }

  predicate IsDirAt(es: seq<Entry>, p: Path) {
    Lookup(es, p).Some? && Lookup(es, p).value.Directory?
  }

  predicate IsOtherAt(es: seq<Entry>, p: Path) {
    Lookup(es, p).Some? && Lookup(es, p).value.OtherEntry?
  }

  // ---------------------------------------------------------------------------
  // The walker
  // ---------------------------------------------------------------------------

  /** What one input entry produces in the output directory. */
  function MirrorEntry(e: Entry): (r: seq<Entry>)
    ensures |r| <= 1
    ensures forall x :: x in r ==> x.name == e.name && !x.OtherEntry?
    ensures |r| == 1 <==> (e.Directory? || (e.RegularFile? && IsCsvName(e.name)))
    decreases e, 1
  {
    match e
    case Directory(n, children) => [Directory(n, Mirror(children))]
    case RegularFile(n, c) => if IsCsvName(n) then [RegularFile(n, Flatten(c))] else []
    case OtherEntry(_) => []
  }

  /** The output listing produced from an input listing. */
  function Mirror(es: seq<Entry>): (r: seq<Entry>)
    ensures Names(r) <= Names(es)
    decreases es, 0
  {
    if |es| == 0 then []
    else
      NamesAppend(MirrorEntry(es[0]), Mirror(es[1..]));
      MirrorEntry(es[0]) + Mirror(es[1..])
  }

  lemma {:induction false} NamesAppend(a: seq<Entry>, b: seq<Entry>)
    ensures Names(a + b) == Names(a) + Names(b)
    decreases |a|
  {
    if |a| == 0 {
      assert a + b == b;
    } else {
      assert (a + b)[1..] == a[1..] + b;
      NamesAppend(a[1..], b);
    }
  }

  /** The first element of a listing of at most one entry. */
  function Single(r: seq<Entry>): Option<Entry> {
    if |r| == 0 then None else Some(r[0])
  }

  /** Looking a name up in the output finds what its input entry produced. */
  lemma {:induction false} FindMirror(es: seq<Entry>, name: string)
    requires UniqueNames(es)
    ensures Find(Mirror(es), name) ==
      match Find(es, name)
      case None => None
      case Some(e) => Single(MirrorEntry(e))
    decreases |es|
  {
    if |es| > 0 {
      var head := MirrorEntry(es[0]);
      var rest := Mirror(es[1..]);
      assert Mirror(es) == head + rest;
      FindMirror(es[1..], name);
      if |head| == 1 {
        assert (head + rest)[0] == head[0];
        assert (head + rest)[1..] == rest;
      } else {
        assert head + rest == rest;
      }
      if es[0].name == name && |head| == 0 {
        assert Find(es[1..], name).None?;
      }
    }
  }

  /** The walker in terms of paths: the output entry at any path is exactly
      what the input entry at that path produces. */
  lemma {:induction false} LookupMirror(es: seq<Entry>, p: Path)
    requires WellFormed(es)
    ensures Lookup(Mirror(es), p) ==
      match Lookup(es, p)
      case None => None
      case Some(e) => Single(MirrorEntry(e))
    decreases |p|
  {
    if |p| > 0 {
      FindMirror(es, p[0]);
      match Find(es, p[0])
      case None =>
      case Some(e) =>
        if |p| > 1 && e.Directory? {
          LookupMirror(e.entries, p[1..]);
        }
    }
  }

  /** An output file exists at a path exactly when the input has a regular file
      there with a `.csv` name, and it holds that file's flattened content. */
  lemma MirrorFiles(es: seq<Entry>, p: Path)
    requires WellFormed(es)
    ensures FileAt(Mirror(es), p).Some? <==> FileAt(es, p).Some? && IsCsvName(p[|p| - 1])
    ensures FileAt(Mirror(es), p).Some? ==> FileAt(Mirror(es), p).value == Flatten(FileAt(es, p).value)
  {
    LookupMirror(es, p);
    if Lookup(es, p).Some? {
      LookupName(es, p);
    }
  }

  /** The entry found at a path carries the path's last name. */
  lemma {:induction false} LookupName(es: seq<Entry>, p: Path)
    requires Lookup(es, p).Some?
    ensures |p| > 0 && Lookup(es, p).value.name == p[|p| - 1]
    decreases |p|
  {
    var e := Find(es, p[0]).value;
    if |p| > 1 {
      LookupName(e.entries, p[1..]);
    }
  }

  /** Every input directory is mirrored at the same path, and there are no others. */
  lemma MirrorDirectories(es: seq<Entry>, p: Path)
    requires WellFormed(es)
    ensures IsDirAt(Mirror(es), p) <==> IsDirAt(es, p)
  {
    LookupMirror(es, p);
  }

  /** Symbolic links, devices and other entry kinds are never produced. */
  lemma MirrorHasNoOtherEntries(es: seq<Entry>, p: Path)
    ensures !IsOtherAt(Mirror(es), p)
  {
    MirrorHasNoOther(es);
    NoOtherAt(Mirror(es), p);
  }

  /** No entry at any depth of the tree is a non-file, non-directory entry. */
  predicate NoOther(es: seq<Entry>)
    decreases es
  {
    forall e :: e in es ==> !e.OtherEntry? && (e.Directory? ==> NoOther(e.entries))
  }

  lemma {:induction false} NoOtherAt(es: seq<Entry>, p: Path)
    requires NoOther(es)
    ensures !IsOtherAt(es, p)
    decreases |p|
  {
    if |p| > 1 {
      match Find(es, p[0])
      case None =>
      case Some(e) =>
        if e.Directory? {
          NoOtherAt(e.entries, p[1..]);
        }
    }
  }

  lemma {:induction false} MirrorHasNoOther(es: seq<Entry>)
    ensures NoOther(Mirror(es))
    decreases es, 0
  {
    if |es| > 0 {
      MirrorEntryHasNoOther(es[0]);
      MirrorHasNoOther(es[1..]);
      assert Mirror(es) == MirrorEntry(es[0]) + Mirror(es[1..]);
    }
  }

  lemma {:induction false} MirrorEntryHasNoOther(e: Entry)
    ensures NoOther(MirrorEntry(e))
    decreases e, 1
  {
    if e.Directory? {
      MirrorHasNoOther(e.entries);
      assert MirrorEntry(e) == [Directory(e.name, Mirror(e.entries))];
    }
  }

  /** Output listings have unique names again. */
  lemma {:induction false} MirrorWellFormed(es: seq<Entry>)
    requires WellFormed(es)
    ensures WellFormed(Mirror(es))
    decreases es
  {
    if |es| > 0 {
      var head := MirrorEntry(es[0]);
      var rest := Mirror(es[1..]);
      assert WellFormed(es[1..]) by {
        forall e | e in es[1..] ensures e in es { }
      }
      MirrorWellFormed(es[1..]);
      if |head| == 1 {
        assert es[0] in es;
        if es[0].Directory? {
          MirrorWellFormed(es[0].entries);
        }
        var r := head + rest;
        assert r[0] == head[0] && r[1..] == rest;
        assert UniqueNames(r);
        forall e | e in r ensures e.Directory? ==> WellFormed(e.entries) {
          if e != head[0] {
            assert e in rest;
          }
        }
      } else {
        assert head + rest == rest;
      }
    }
  }

  /** Running the walker over its own output reproduces that output: the
      directories are mirrored again and the flattened files stay as they are. */
  lemma {:induction false} MirrorIdempotent(es: seq<Entry>)
    ensures Mirror(Mirror(es)) == Mirror(es)
    decreases es, 0
  {
    if |es| > 0 {
      MirrorAppend(MirrorEntry(es[0]), Mirror(es[1..]));
      MirrorEntryIdempotent(es[0]);
      MirrorIdempotent(es[1..]);
    }
  }

  lemma {:induction false} MirrorEntryIdempotent(e: Entry)
    ensures Mirror(MirrorEntry(e)) == MirrorEntry(e)
    decreases e, 1
  {
    var r := MirrorEntry(e);
    if |r| == 1 {
      assert r[1..] == [];
      match e
      case Directory(n, children) =>
        MirrorIdempotent(children);
      case RegularFile(n, c) =>
        FlattenerProperties.FlattenIdempotent(c);
    }
  }

  lemma {:induction false} MirrorAppend(a: seq<Entry>, b: seq<Entry>)
    ensures Mirror(a + b) == Mirror(a) + Mirror(b)
    decreases |a|
  {
    if |a| == 0 {
      assert a + b == b;
    } else {
      assert (a + b)[0] == a[0];
      assert (a + b)[1..] == a[1..] + b;
      MirrorAppend(a[1..], b);
    }
  }

  /** The tree `a.csv`, `sub/b.CSV`, `notes.txt`: both CSV files come out
      flattened, the suffix test ignoring case, and `notes.txt` does not. */
  lemma ExampleRun(a: string, b: string, notes: string)
    ensures var input := [RegularFile("a.csv", a),
                          Directory("sub", [RegularFile("b.CSV", b)]),
                          RegularFile("notes.txt", notes)];
            FileAt(Mirror(input), ["a.csv"]) == Some(Flatten(a))
            && FileAt(Mirror(input), ["sub", "b.CSV"]) == Some(Flatten(b))
            && FileAt(Mirror(input), ["notes.txt"]).None?
            && IsDirAt(Mirror(input), ["sub"])
  {
    ExampleMirror(a, b, notes);
    ExampleLookups(RegularFile("a.csv", Flatten(a)), Directory("sub", [RegularFile("b.CSV", Flatten(b))]),
                   Flatten(a), Flatten(b));
  }

  lemma ExampleMirror(a: string, b: string, notes: string)
    ensures Mirror([RegularFile("a.csv", a), Directory("sub", [RegularFile("b.CSV", b)]), RegularFile("notes.txt", notes)])
         == [RegularFile("a.csv", Flatten(a)), Directory("sub", [RegularFile("b.CSV", Flatten(b))])]
  {
    var x := RegularFile("a.csv", a);
    var y := Directory("sub", [RegularFile("b.CSV", b)]);
    var z := RegularFile("notes.txt", notes);
    ExampleNames();
    MirrorSingle(RegularFile("b.CSV", b));
    assert MirrorEntry(x) == [RegularFile("a.csv", Flatten(a))];
    assert MirrorEntry(y) == [Directory("sub", [RegularFile("b.CSV", Flatten(b))])];
    assert MirrorEntry(z) == [];
    MirrorSingle(x);
    MirrorSingle(y);
    MirrorSingle(z);
    assert [x, y, z] == [x] + ([y] + [z]);
    MirrorAppend([x], [y] + [z]);
    MirrorAppend([y], [z]);
  }

  lemma ExampleLookups(fa: Entry, sub: Entry, ca: string, cb: string)
    requires fa == RegularFile("a.csv", ca)
    requires sub == Directory("sub", [RegularFile("b.CSV", cb)])
    ensures FileAt([fa, sub], ["a.csv"]) == Some(ca)
    ensures FileAt([fa, sub], ["sub", "b.CSV"]) == Some(cb)
    ensures FileAt([fa, sub], ["notes.txt"]).None?
    ensures IsDirAt([fa, sub], ["sub"])
  {
    var out := [fa, sub];
    assert out[1..] == [sub] && [sub][1..] == [];
    assert Find(out, "a.csv") == Some(fa);
    assert Find(out, "sub") == Some(sub);
    assert Find(out, "notes.txt").None?;
    assert Find(sub.entries, "b.CSV") == Some(sub.entries[0]);
    assert ["sub", "b.CSV"][1..] == ["b.CSV"];
  }

  lemma ExampleNames()
    ensures IsCsvName("a.csv") && IsCsvName("b.CSV") && !IsCsvName("notes.txt")
  {
    CsvNameCharacterised("a.csv");
    CsvNameCharacterised("b.CSV");
    CsvNameCharacterised("notes.txt");
  }

  lemma MirrorSingle(e: Entry)
    ensures Mirror([e]) == MirrorEntry(e)
  {
    assert [e][1..] == [];
    assert MirrorEntry(e) + [] == MirrorEntry(e);
  }
}
