/**
 * The section-name list of src/firmware2elf.c (`struct stringlist` and
 * `strlist_init`, `strlist_add`, `strlist_ndx`, `strlist_get`): an append-only
 * buffer of NUL-terminated names whose first byte is the empty name.
 * `buflen` is the length of the sequence.
 */
module StringTable {
  import opened Bytes

  /** A C string: no NUL byte inside. */
  predicate IsCString(name: seq<uint8>) {
    forall i :: 0 <= i < |name| ==> name[i] != 0
  }

  /** The bytes at `off` read as the NUL-terminated string `name`. */
  predicate NameAt(buf: seq<uint8>, off: nat, name: seq<uint8>) {
    off + |name| < |buf| && buf[off..off + |name|] == name && buf[off + |name|] == 0
  }

  /** The shape every list has: it starts with the empty name and ends with a NUL. */
  predicate WellFormedTable(buf: seq<uint8>) {
    |buf| >= 1 && buf[0] == 0 && buf[|buf| - 1] == 0
  }

  /** The scan of `strlist_ndx` from position `from` on. */
  function FirstFrom(buf: seq<uint8>, name: seq<uint8>, from: nat): (ndx: nat)
    decreases |buf| - from
  {
    if from + |name| + 1 > |buf| then 0
    else if NameAt(buf, from, name) then from
    else FirstFrom(buf, name, from + 1)
  }

  /** What `strlist_ndx` returns. */
  function Lookup(buf: seq<uint8>, name: seq<uint8>): (ndx: nat) {
    FirstFrom(buf, name, 0)
  }

  /** What `strlist_get` leaves in the buffer and returns. */
  function GetOrAdd(buf: seq<uint8>, name: seq<uint8>): (r: (seq<uint8>, nat)) {
    var ndx := Lookup(buf, name);
    if ndx == 0 then (buf + name + [0], |buf|) else (buf, ndx)
  }

  lemma {:induction false} FirstFromSpec(buf: seq<uint8>, name: seq<uint8>, from: nat)
    ensures (exists i :: from <= i && NameAt(buf, i, name)) ==>
      var r := FirstFrom(buf, name, from);
      from <= r && NameAt(buf, r, name) && forall i :: from <= i < r ==> !NameAt(buf, i, name)
    ensures (forall i :: from <= i ==> !NameAt(buf, i, name)) ==> FirstFrom(buf, name, from) == 0
    decreases |buf| - from
  {
    if from + |name| + 1 <= |buf| && !NameAt(buf, from, name) {
      FirstFromSpec(buf, name, from + 1);
      if exists i :: from <= i && NameAt(buf, i, name) {
        var i :| from <= i && NameAt(buf, i, name);
        assert from + 1 <= i;
      }
    }
  }

  /**
   * `strlist_ndx` finds the least offset at which `name` followed by a NUL
   * occurs, or 0 when there is none. The search is over raw bytes, so the hit
   * may be the tail of a longer name.
   */
  lemma LookupIsFirstOccurrence(buf: seq<uint8>, name: seq<uint8>)
    ensures (exists i :: NameAt(buf, i, name)) ==>
      NameAt(buf, Lookup(buf, name), name) && forall i :: 0 <= i < Lookup(buf, name) ==> !NameAt(buf, i, name)
    ensures (forall i :: !NameAt(buf, i, name)) ==> Lookup(buf, name) == 0
  {
    FirstFromSpec(buf, name, 0);
  }

  /** For a non-empty name in a well-formed list, 0 means "absent" and nothing else. */
  lemma LookupZeroIffAbsent(buf: seq<uint8>, name: seq<uint8>)
    requires WellFormedTable(buf) && |name| > 0 && IsCString(name)
    ensures Lookup(buf, name) == 0 <==> forall i :: !NameAt(buf, i, name)
  {
    LookupIsFirstOccurrence(buf, name);
    assert !NameAt(buf, 0, name) by {
      if |name| < |buf| {
        assert buf[0..|name|][0] == 0 != name[0];
      }
    }
  }

  /** The empty name always looks up as 0, so `strlist_get("")` appends every time. */
  lemma EmptyNameAlwaysAppends(buf: seq<uint8>)
    requires WellFormedTable(buf)
    ensures GetOrAdd(buf, []) == (buf + [0], |buf|)
  {
    assert NameAt(buf, 0, []);
    assert buf + [] + [0] == buf + [0];
  }

  /** Appending never moves or changes a name already present. */
  lemma NameAtStable(buf: seq<uint8>, more: seq<uint8>, off: nat, name: seq<uint8>)
    requires NameAt(buf, off, name)
    ensures NameAt(buf + more, off, name)
  {
    assert (buf + more)[off..off + |name|] == buf[off..off + |name|];
  }

  /**
   * `strlist_get` returns an offset holding `name`, only ever appends, and
   * appends exactly `name` and a NUL when the name was not found.
   */
  lemma GetOrAddResult(buf: seq<uint8>, name: seq<uint8>)
    requires WellFormedTable(buf) && IsCString(name)
    ensures var (buf', ndx) := GetOrAdd(buf, name);
      && WellFormedTable(buf')
      && NameAt(buf', ndx, name)
      && buf <= buf'
      && (buf' == buf || (buf' == buf + name + [0] && ndx == |buf|))
  {
    var ndx := Lookup(buf, name);
    if ndx == 0 {
      var buf' := buf + name + [0];
      assert buf'[|buf|..|buf| + |name|] == name;
    } else {
      LookupIsFirstOccurrence(buf, name);
      if forall i :: !NameAt(buf, i, name) {
        assert false;
      }
    }
  }

  /**
   * A name just appended is found again at the offset where it was appended:
   * no earlier occurrence can straddle the old end, because the old buffer
   * ends with a NUL and the name holds none.
   */
  lemma {:induction false} LookupAfterAppend(buf: seq<uint8>, name: seq<uint8>)
    requires WellFormedTable(buf) && |name| > 0 && IsCString(name)
    requires forall i :: !NameAt(buf, i, name)
    ensures Lookup(buf + name + [0], name) == |buf|
  {
    var buf' := buf + name + [0];
    assert NameAt(buf', |buf|, name) by {
      assert buf'[|buf|..|buf| + |name|] == name;
    }
    forall i | 0 <= i < |buf| ensures !NameAt(buf', i, name) {
      if i + |name| < |buf| {
        // entirely inside the old buffer, where the name does not occur
        assert buf'[i..i + |name|] == buf[i..i + |name|];
        assert buf'[i + |name|] == buf[i + |name|];
        assert !NameAt(buf, i, name);
      } else if i + |name| == |buf| {
        // the terminator would be the first byte of the appended name
        assert buf'[|buf|] == name[0];
      } else if i + |name| < |buf'| {
        // the old final NUL would fall inside the name
        var j := |buf| - 1 - i;
        assert buf'[i..i + |name|][j] == buf'[|buf| - 1] == 0;
        assert name[j] != 0;
      }
    }
    LookupIsFirstOccurrence(buf', name);
  }

  /**
   * Asking twice for the same non-empty name returns the same offset and
   * leaves the buffer as the first call left it.
   */
  lemma GetOrAddIdempotent(buf: seq<uint8>, name: seq<uint8>)
    requires WellFormedTable(buf) && |name| > 0 && IsCString(name)
    ensures var (buf', ndx) := GetOrAdd(buf, name);
      GetOrAdd(buf', name) == (buf', ndx)
  {
    var ndx := Lookup(buf, name);
    if ndx == 0 {
      LookupZeroIffAbsent(buf, name);
      LookupAfterAppend(buf, name);
    }
  }

  /**
   * Once a name is found, appending anything leaves its lookup where it was:
   * every position up to the hit lies wholly inside the old buffer.
   */
  lemma LookupStableAfterAppend(buf: seq<uint8>, more: seq<uint8>, name: seq<uint8>)
    requires exists i :: NameAt(buf, i, name)
    ensures Lookup(buf + more, name) == Lookup(buf, name)
  {
    var p := Lookup(buf, name);
    LookupIsFirstOccurrence(buf, name);
    NameAtStable(buf, more, p, name);
    forall i | 0 <= i < p ensures !NameAt(buf + more, i, name) {
      if NameAt(buf + more, i, name) {
        assert (buf + more)[i..i + |name|] == buf[i..i + |name|];
        assert NameAt(buf, i, name);
      }
    }
    LookupIsFirstOccurrence(buf + more, name);
  }

  // ----- lists built from distinct names -----

  /** The buffer that holds the empty name followed by `names`, each with its NUL. */
  function Join(names: seq<seq<uint8>>): (buf: seq<uint8>)
    ensures WellFormedTable(buf)
  {
    if names == [] then [0] else Join(names[..|names| - 1]) + names[|names| - 1] + [0]
  }

  lemma JoinAppend(names: seq<seq<uint8>>, name: seq<uint8>)
    ensures Join(names + [name]) == Join(names) + name + [0]
  {
    assert (names + [name])[..|names|] == names;
  }

  predicate AllCStrings(names: seq<seq<uint8>>) {
    forall j :: 0 <= j < |names| ==> IsCString(names[j])
  }

  /** `name` ends `s`: a raw search for `name` and a NUL would match at the end of `s`. */
  predicate IsSuffix(name: seq<uint8>, s: seq<uint8>) {
    |name| <= |s| && s[|s| - |name|..] == name
  }

  /**
   * Where no entry ends with `name`, the raw search cannot find it: a hit
   * must end on one of the NULs, so `name` would be the tail of the entry
   * before that NUL.
   */
  lemma {:induction false} AbsentFromJoin(names: seq<seq<uint8>>, name: seq<uint8>)
    requires AllCStrings(names) && |name| > 0 && IsCString(name)
    requires forall j :: 0 <= j < |names| ==> !IsSuffix(name, names[j])
    ensures forall i :: !NameAt(Join(names), i, name)
  {
    if names != [] {
      var m := |names| - 1;
      var front, x := names[..m], names[m];
      assert forall j :: 0 <= j < m ==> front[j] == names[j];
      AbsentFromJoin(front, name);
      var prev := Join(front);
      var buf := Join(names);
      assert buf == prev + x + [0];
      forall i: nat ensures !NameAt(buf, i, name) {
        var e := i + |name|;
        if e < |prev| {
          // wholly inside the earlier entries, where the name does not occur
          assert buf[i..e] == prev[i..e] && buf[e] == prev[e];
          assert !NameAt(prev, i, name);
        } else if e < |prev| + |x| {
          // the terminator would fall inside the last entry
          assert buf[e] == x[e - |prev|];
        } else if e == |prev| + |x| {
          if i < |prev| {
            // the NUL that ends `prev` would fall inside the name
            assert buf[i..e][|prev| - 1 - i] == buf[|prev| - 1] == 0;
            assert name[|prev| - 1 - i] != 0;
          } else {
            assert buf[i..e] == x[|x| - |name|..];
            assert !IsSuffix(name, x);
          }
        }
      }
    }
  }

  /** Entry `j` sits right after the entries before it. */
  lemma {:induction false} NameAtJoin(names: seq<seq<uint8>>, j: nat)
    requires j < |names|
    ensures NameAt(Join(names), |Join(names[..j])|, names[j])
  {
    var m := |names| - 1;
    var front := names[..m];
    assert Join(names) == Join(front) + names[m] + [0];
    if j == m {
      assert Join(names)[|Join(front)|..|Join(front)| + |names[m]|] == names[m];
    } else {
      NameAtJoin(front, j);
      assert front[..j] == names[..j] && front[j] == names[j];
      NameAtStable(Join(front), names[m] + [0], |Join(names[..j])|, names[j]);
      assert Join(front) + names[m] + [0] == Join(front) + (names[m] + [0]);
    }
  }

  /** The last two entries sit right after the entries before each of them. */
  lemma NameAtJoinLastTwo(names: seq<seq<uint8>>, a: seq<uint8>, b: seq<uint8>)
    ensures NameAt(Join(names + [a, b]), |Join(names)|, a)
    ensures NameAt(Join(names + [a, b]), |Join(names + [a])|, b)
  {
    var all := names + [a, b];
    NameAtJoin(all, |names|);
    NameAtJoin(all, |names| + 1);
    assert all[..|names|] == names && all[..|names| + 1] == names + [a];
  }

  /** `strlist_get` of a name no entry ends with appends it as the next entry. */
  lemma GetOrAddNew(names: seq<seq<uint8>>, name: seq<uint8>)
    requires AllCStrings(names) && |name| > 0 && IsCString(name)
    requires forall j :: 0 <= j < |names| ==> !IsSuffix(name, names[j])
    ensures GetOrAdd(Join(names), name) == (Join(names + [name]), |Join(names)|)
  {
    AbsentFromJoin(names, name);
    LookupZeroIffAbsent(Join(names), name);
    JoinAppend(names, name);
  }

  /** `strlist_get` of an entry already present leaves the list alone. */
  lemma GetOrAddPresent(names: seq<seq<uint8>>, j: nat)
    requires j < |names| && |names[j]| > 0 && IsCString(names[j])
    ensures GetOrAdd(Join(names), names[j]).0 == Join(names)
  {
    NameAtJoin(names, j);
    LookupZeroIffAbsent(Join(names), names[j]);
  }

  /** `struct stringlist`. */
  class StringList {
    var buf: seq<uint8>

    ghost predicate Valid()
      reads this
    {
      WellFormedTable(buf)
    }

    /** `strlist_init`: the buffer holds the empty name alone. */
    constructor Init()
      ensures Valid() && buf == [0]
    {
      buf := [0];
    }

    /** `strlist_add`: append `name` and its NUL; return where it starts. */
    method Add(name: seq<uint8>) returns (ndx: nat)
      requires Valid() && IsCString(name)
      modifies this
      ensures Valid()
      ensures buf == old(buf) + name + [0] && ndx == |old(buf)|
      ensures NameAt(buf, ndx, name)
    {
      ndx := |buf|;
      buf := buf + name + [0];
      assert buf[ndx..ndx + |name|] == name;
    }

    /** `strlist_ndx`: scan every position that leaves room for `name` and its NUL. */
    method Ndx(name: seq<uint8>) returns (ndx: nat)
      ensures ndx == Lookup(buf, name)
    {
      var namelen := |name| + 1;
      if namelen > |buf| {
        return 0;
      }
      var i := 0;
      while i <= |buf| - namelen
        invariant 0 <= i <= |buf| - namelen + 1
        invariant FirstFrom(buf, name, i) == Lookup(buf, name)
      {
        if buf[i..i + namelen] == name + [0] {
          assert buf[i..i + |name|] == buf[i..i + namelen][..|name|];
          assert buf[i + |name|] == buf[i..i + namelen][|name|];
          return i;
        }
        i := i + 1;
      }
      return 0;
    }

    /** `strlist_get`: look the name up, and append it when the lookup says 0. */
    method Get(name: seq<uint8>) returns (ndx: nat)
      requires Valid() && IsCString(name)
      modifies this
      ensures Valid()
      ensures (buf, ndx) == GetOrAdd(old(buf), name)
      ensures NameAt(buf, ndx, name) && old(buf) <= buf
    {
      GetOrAddResult(buf, name);
      ndx := Ndx(name);
      if ndx == 0 {
        ndx := Add(name);
      }
    }
  }
}
