/**
 * The record framing of a multi-structure xyz file, as `Cluster.read_xyz`
 * walks it: a count line, a title line, then the block of atom lines, the
 * next record starting `count + 2` lines after the previous one.
 *
 * Turning the count line into a number and one record's lines into atoms
 * and coordinates are done by `int` and by the `rmsd` library's
 * `get_coordinates_xyz_lines`; both enter the model as the fields of an
 * `XyzLib` value.
 */
module XyzFormat {
  import opened Structures

  /** The characters Python's `str.isspace` accepts, which `str.strip` removes. */
  const WHITESPACE: set<char> := {
    '\t', '\n', '\U{B}', '\U{C}', '\r', '\U{1C}', '\U{1D}', '\U{1E}', '\U{1F}', ' ',
    '\U{85}', '\U{A0}', '\U{1680}',
    '\U{2000}', '\U{2001}', '\U{2002}', '\U{2003}', '\U{2004}', '\U{2005}', '\U{2006}',
    '\U{2007}', '\U{2008}', '\U{2009}', '\U{200A}',
    '\U{2028}', '\U{2029}', '\U{202F}', '\U{205F}', '\U{3000}'}

  predicate IsSpace(c: char) {
    c in WHITESPACE
  }

  /** The first position from `i` on that does not hold whitespace, or `|s|`. */
  function SkipForward(s: string, i: nat): (k: nat)
    requires i <= |s|
    ensures i <= k <= |s|
    decreases |s| - i
  {
    if i == |s| || !IsSpace(s[i]) then i else SkipForward(s, i + 1)
  }

  /** The end of `s[lo..j]` once its trailing whitespace is dropped. */
  function SkipBackward(s: string, lo: nat, j: nat): (k: nat)
    requires lo <= j <= |s|
    ensures lo <= k <= j
    decreases j
  {
    if j == lo || !IsSpace(s[j - 1]) then j else SkipBackward(s, lo, j - 1)
  }

  /** Python's `s.strip()`: leading whitespace, then trailing whitespace, removed. */
  function Strip(s: string): (r: string)
    ensures |r| <= |s|
    ensures r == [] || (!IsSpace(r[0]) && !IsSpace(r[|r| - 1]))
  {
    var a := SkipForward(s, 0);
    var b := SkipBackward(s, a, |s|);
    SkipForwardStops(s, 0);
    SkipBackwardStops(s, a, |s|);
    s[a..b]
  }

  lemma {:induction false} SkipForwardStops(s: string, i: nat)
    requires i <= |s|
    ensures forall k :: i <= k < SkipForward(s, i) ==> IsSpace(s[k])
    ensures SkipForward(s, i) == |s| || !IsSpace(s[SkipForward(s, i)])
    decreases |s| - i
  {
    if i < |s| && IsSpace(s[i]) {
      SkipForwardStops(s, i + 1);
    }
  }

  lemma {:induction false} SkipBackwardStops(s: string, lo: nat, j: nat)
    requires lo <= j <= |s|
    ensures forall k :: SkipBackward(s, lo, j) <= k < j ==> IsSpace(s[k])
    ensures SkipBackward(s, lo, j) == lo || !IsSpace(s[SkipBackward(s, lo, j) - 1])
    decreases j
  {
    if j > lo && IsSpace(s[j - 1]) {
      SkipBackwardStops(s, lo, j - 1);
    }
  }

  /**
   * `strip` keeps a contiguous slice of the line: everything before and
   * after it is whitespace, and the slice neither starts nor ends with
   * whitespace.
   */
  lemma StripIsSlice(s: string)
    ensures exists i, j ::
      && 0 <= i <= j <= |s| && Strip(s) == s[i..j]
      && (forall k :: 0 <= k < i || j <= k < |s| ==> IsSpace(s[k]))
    ensures Strip(s) == [] || (!IsSpace(Strip(s)[0]) && !IsSpace(Strip(s)[|Strip(s)| - 1]))
  {
    var a := SkipForward(s, 0);
    SkipForwardStops(s, 0);
    var b := SkipBackward(s, a, |s|);
    SkipBackwardStops(s, a, |s|);
    assert Strip(s) == s[a..b];
  }

  /** Stripping twice is stripping once. */
  lemma StripIdempotent(s: string)
    ensures Strip(Strip(s)) == Strip(s)
  {
    var r := Strip(s);
    StripIsSlice(s);
    if r != [] {
      assert SkipForward(r, 0) == 0;
      assert SkipBackward(r, 0, |r|) == |r|;
    }
  }

  /**
   * `count(line)` is `int(line)` on the stripped count line;
   * `parse(block, asInt)` is `get_coordinates_xyz_lines(block,
   * return_atoms_as_int=asInt)`.
   */
  datatype XyzLib = XyzLib(
    count: string -> nat,
    parse: (seq<string>, bool) -> Molecule)

  /** The line after the record that starts at line `n`. */
  function Next(lines: seq<string>, n: nat, lib: XyzLib): nat
    requires n < |lines|
  {
    n + lib.count(Strip(lines[n])) + 2
  }

  /** The lines of the record that starts at `n`: Python's slice `lines[n:n+2+count]`, cut at the end of the file. */
  function Block(lines: seq<string>, n: nat, lib: XyzLib): seq<string>
    requires n < |lines|
  {
    var end := Next(lines, n, lib);
    lines[n..if end <= |lines| then end else |lines|]
  }

  /**
   * What the framing loop produces from line `n` on: the first line of
   * each record, the titles, the molecules, and whether the loop ran off
   * the end cleanly (`false`: the title line of the last record is missing,
   * an IndexError).
   */
  datatype Framing = Framing(starts: seq<nat>, titles: seq<string>, molecs: seq<Molecule>, complete: bool)

  function Frame(lines: seq<string>, n: nat, asInt: bool, lib: XyzLib): (f: Framing)
    ensures |f.starts| == |f.titles| == |f.molecs|
    decreases |lines| - n
  {
    if n >= |lines| then Framing([], [], [], true)
    else if n + 1 >= |lines| then Framing([], [], [], false)
    else
      var rest := Frame(lines, Next(lines, n, lib), asInt, lib);
      Framing(
        [n] + rest.starts,
        [Strip(lines[n + 1])] + rest.titles,
        [lib.parse(Block(lines, n, lib), asInt)] + rest.molecs,
        rest.complete)
  }

  /** One turn of the loop: the record at `n` is followed by the framing from the next record on. */
  lemma FrameStep(lines: seq<string>, n: nat, asInt: bool, lib: XyzLib)
    requires n + 1 < |lines|
    ensures Frame(lines, n, asInt, lib).starts == [n] + Frame(lines, Next(lines, n, lib), asInt, lib).starts
    ensures Frame(lines, n, asInt, lib).titles
      == [Strip(lines[n + 1])] + Frame(lines, Next(lines, n, lib), asInt, lib).titles
    ensures Frame(lines, n, asInt, lib).molecs
      == [lib.parse(Block(lines, n, lib), asInt)] + Frame(lines, Next(lines, n, lib), asInt, lib).molecs
    ensures Frame(lines, n, asInt, lib).complete == Frame(lines, Next(lines, n, lib), asInt, lib).complete
  {
  }

  /** The same turn, seen from lists that already hold the records read before `n`. */
  lemma FrameStepAppend(lines: seq<string>, n: nat, asInt: bool, lib: XyzLib, titles: seq<string>, molecs: seq<Molecule>)
    requires n + 1 < |lines|
    ensures (titles + [Strip(lines[n + 1])]) + Frame(lines, Next(lines, n, lib), asInt, lib).titles
      == titles + Frame(lines, n, asInt, lib).titles
    ensures (molecs + [lib.parse(Block(lines, n, lib), asInt)]) + Frame(lines, Next(lines, n, lib), asInt, lib).molecs
      == molecs + Frame(lines, n, asInt, lib).molecs
    ensures Frame(lines, n, asInt, lib).complete == Frame(lines, Next(lines, n, lib), asInt, lib).complete
  {
    FrameStep(lines, n, asInt, lib);
  }

  /**
   * The records, one by one: each starts inside the file with its title
   * line present, the first at `n`.
   */
  lemma {:induction false} FrameStarts(lines: seq<string>, n: nat, asInt: bool, lib: XyzLib)
    ensures |Frame(lines, n, asInt, lib).starts| > 0 ==> Frame(lines, n, asInt, lib).starts[0] == n
    ensures forall k :: 0 <= k < |Frame(lines, n, asInt, lib).starts| ==>
      n <= Frame(lines, n, asInt, lib).starts[k] && Frame(lines, n, asInt, lib).starts[k] + 1 < |lines|
    decreases |lines| - n
  {
    if n + 1 < |lines| {
      var next := Next(lines, n, lib);
      var f, rest := Frame(lines, n, asInt, lib), Frame(lines, next, asInt, lib);
      FrameStarts(lines, next, asInt, lib);
      assert f.starts == [n] + rest.starts;
      forall k | 0 < k < |f.starts| ensures n <= f.starts[k] && f.starts[k] + 1 < |lines| {
        assert f.starts[k] == rest.starts[k - 1];
      }
    }
  }

  /** Each title is the stripped line after its record's count line. */
  lemma {:induction false} FrameTitles(lines: seq<string>, n: nat, asInt: bool, lib: XyzLib)
    ensures forall k :: 0 <= k < |Frame(lines, n, asInt, lib).starts| && Frame(lines, n, asInt, lib).starts[k] + 1 < |lines| ==>
      Frame(lines, n, asInt, lib).titles[k] == Strip(lines[Frame(lines, n, asInt, lib).starts[k] + 1])
    decreases |lines| - n
  {
    if n + 1 < |lines| {
      var next := Next(lines, n, lib);
      var f, rest := Frame(lines, n, asInt, lib), Frame(lines, next, asInt, lib);
      FrameTitles(lines, next, asInt, lib);
      assert f.starts == [n] + rest.starts && f.titles == [Strip(lines[n + 1])] + rest.titles;
      forall k | 0 < k < |f.starts| && f.starts[k] + 1 < |lines|
        ensures f.titles[k] == Strip(lines[f.starts[k] + 1])
      {
        assert f.starts[k] == rest.starts[k - 1] && f.titles[k] == rest.titles[k - 1];
      }
    }
  }

  /** Each molecule is parsed from its own record's block of lines. */
  lemma {:induction false} FrameMolecules(lines: seq<string>, n: nat, asInt: bool, lib: XyzLib)
    ensures forall k :: 0 <= k < |Frame(lines, n, asInt, lib).starts| ==>
      Frame(lines, n, asInt, lib).starts[k] < |lines|
    ensures forall k :: 0 <= k < |Frame(lines, n, asInt, lib).starts| ==>
      Frame(lines, n, asInt, lib).molecs[k] == lib.parse(Block(lines, Frame(lines, n, asInt, lib).starts[k], lib), asInt)
    decreases |lines| - n
  {
    if n + 1 < |lines| {
      var next := Next(lines, n, lib);
      var f, rest := Frame(lines, n, asInt, lib), Frame(lines, next, asInt, lib);
      FrameMolecules(lines, next, asInt, lib);
      assert f.starts == [n] + rest.starts && f.molecs == [lib.parse(Block(lines, n, lib), asInt)] + rest.molecs;
      forall k | 0 <= k < |f.starts|
        ensures f.starts[k] < |lines| && f.molecs[k] == lib.parse(Block(lines, f.starts[k], lib), asInt)
      {
        if k > 0 {
          assert f.starts[k] == rest.starts[k - 1] && f.molecs[k] == rest.molecs[k - 1];
        }
      }
    }
  }

  /**
   * Each record begins `count + 2` lines after the previous one. The walk
   * fails exactly when the line after the last record is the final line
   * of the file (a count line with no title line after it); otherwise it
   * ends at or past the end of the file.
   */
  lemma {:induction false} FrameChain(lines: seq<string>, n: nat, asInt: bool, lib: XyzLib)
    ensures var f := Frame(lines, n, asInt, lib);
      && (forall k :: 0 <= k < |f.starts| ==> f.starts[k] < |lines|)
      && (forall k :: 0 <= k < |f.starts| - 1 ==> f.starts[k + 1] == Next(lines, f.starts[k], lib))
      && var after := if |f.starts| == 0 then n else Next(lines, f.starts[|f.starts| - 1], lib);
         && |lines| <= after + 1
         && (f.complete <==> |lines| <= after)
    decreases |lines| - n
  {
    if n + 1 < |lines| {
      var next := Next(lines, n, lib);
      var f, rest := Frame(lines, n, asInt, lib), Frame(lines, next, asInt, lib);
      assert f.starts == [n] + rest.starts && f.complete == rest.complete;
      FrameChain(lines, next, asInt, lib);
      forall k | 1 <= k < |f.starts| ensures f.starts[k] == rest.starts[k - 1] {
      }
    }
  }
}
