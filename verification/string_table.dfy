/**
 * The file-name string table: a byte range read as 2-byte little-endian code
 * units (`wchar_t` on Windows), cut into strings at every zero unit.
 *
 * `Split` is the reference definition (cut at the first zero, recurse on the
 * rest); `ScanTable` is the accumulate-and-flush loop the parser runs. The
 * lemmas characterise `Split` completely: it is the unique list of zero-free
 * strings whose zero-terminated concatenation, followed by a zero-free tail,
 * is the input.
 */
module StringTable {
  import opened Bytes

  /** One UTF-16 code unit. */
  type Unit = x: int | 0 <= x < 0x1_0000

  /** The code units of an even-length byte range, each read little-endian. */
  function Units(bs: seq<byte>): (us: seq<Unit>)
    requires |bs| % 2 == 0
    ensures |us| == |bs| / 2
    ensures forall k :: 0 <= k < |us| ==> us[k] == LeDecode(bs[2 * k..2 * k + 2])
    ensures forall k :: 0 <= k < |us| ==> us[k] == bs[2 * k] as int + 0x100 * (bs[2 * k + 1] as int)
  {
    var us: seq<Unit> := seq(|bs| / 2, k requires 0 <= k < |bs| / 2 =>
      bs[2 * k] as int + 0x100 * (bs[2 * k + 1] as int));
    assert forall k :: 0 <= k < |us| ==> us[k] == LeDecode(bs[2 * k..2 * k + 2]) by {
      forall k | 0 <= k < |us| {
        LeDecodeTwo(bs[2 * k..2 * k + 2]);
      }
    }
    us
  }

  /** `s` holds no zero (terminator) unit. */
  predicate NoZero(s: seq<Unit>) {
    forall j :: 0 <= j < |s| ==> s[j] != 0
  }

  /** The number of zero units in `s`. */
  function CountZeros(s: seq<Unit>): nat {
    if |s| == 0 then 0
    else (if s[0] == 0 then 1 else 0) + CountZeros(s[1..])
  }

  /** Each string followed by its zero terminator, in order. */
  function Join(names: seq<seq<Unit>>): seq<Unit> {
    if |names| == 0 then []
    else names[0] + [0] + Join(names[1..])
  }

  /** The position of the first zero unit of `s`. */
  function FirstZero(s: seq<Unit>): (k: nat)
    requires !NoZero(s)
    ensures k < |s| && s[k] == 0
    ensures NoZero(s[..k])
  {
    if s[0] == 0 then 0
    else
      assert !NoZero(s[1..]) by {
        var j :| 0 <= j < |s| && s[j] == 0;
        assert s[1..][j - 1] == 0;
      }
      var k := FirstZero(s[1..]);
      assert s[..k + 1] == [s[0]] + s[1..][..k];
      k + 1
  }

  /** Reference definition of the table: every zero-terminated string, in
      order; a trailing unterminated run is not a string. */
  function Split(s: seq<Unit>): (names: seq<seq<Unit>>)
    ensures forall i :: 0 <= i < |names| ==> NoZero(names[i])
    decreases |s|
  {
    if NoZero(s) then []
    else
      var k := FirstZero(s);
      [s[..k]] + Split(s[k + 1..])
  }

  lemma {:induction false} CountZerosAppend(a: seq<Unit>, b: seq<Unit>)
    ensures CountZeros(a + b) == CountZeros(a) + CountZeros(b)
  {
    if |a| > 0 {
      assert (a + b)[0] == a[0];
      assert (a + b)[1..] == a[1..] + b;
      CountZerosAppend(a[1..], b);
    } else {
      assert a + b == b;
    }
  }

  lemma {:induction false} CountZerosNone(s: seq<Unit>)
    requires NoZero(s)
    ensures CountZeros(s) == 0
  {
    if |s| > 0 {
      CountZerosNone(s[1..]);
    }
  }

  lemma {:induction false} JoinAppend(names: seq<seq<Unit>>, s: seq<Unit>)
    ensures Join(names + [s]) == Join(names) + s + [0]
  {
    if |names| > 0 {
      assert (names + [s])[1..] == names[1..] + [s];
      JoinAppend(names[1..], s);
    }
  }

  /** The strings are the input up to and including its last zero unit, cut at
      each zero: the joined output is a prefix of the input and what it leaves
      out holds no zero. */
  lemma {:induction false} SplitJoin(s: seq<Unit>)
    ensures JoinedPrefix(s, Join(Split(s)))
    decreases |s|
  {
    if NoZero(s) {
      assert Split(s) == [];
      assert s[0..] == s;
    } else {
      var k := FirstZero(s);
      var t := s[k + 1..];
      SplitJoin(t);
      JoinSplitStep(s);
      PrefixAfterTerminator(s, s[..k], t, Join(Split(t)));
    }
  }

  /** `j` is a prefix of `s` and what follows it in `s` holds no zero. */
  predicate JoinedPrefix(s: seq<Unit>, j: seq<Unit>) {
    |j| <= |s| && j == s[..|j|] && NoZero(s[|j|..])
  }

  /** Sequence bookkeeping for `SplitJoin`: a prefix of `t` after `a` and a
      terminator is a prefix of `a + [0] + t`, with the same leftover. */
  lemma PrefixAfterTerminator(s: seq<Unit>, a: seq<Unit>, t: seq<Unit>, j: seq<Unit>)
    requires s == a + [0] + t
    requires JoinedPrefix(t, j)
    ensures JoinedPrefix(s, a + [0] + j)
  {
    assert s[|a + [0] + j|..] == t[|j|..];
  }

  /** One step of `Split`, seen through `Join`. */
  lemma JoinSplitStep(s: seq<Unit>)
    requires !NoZero(s)
    ensures Join(Split(s)) == s[..FirstZero(s)] + [0] + Join(Split(s[FirstZero(s) + 1..]))
  {
    var k := FirstZero(s);
    var rest := Split(s[k + 1..]);
    assert Split(s) == [s[..k]] + rest;
    JoinCons(s[..k], rest);
  }

  lemma JoinCons(name: seq<Unit>, names: seq<seq<Unit>>)
    ensures Join([name] + names) == name + [0] + Join(names)
  {
    assert ([name] + names)[1..] == names;
  }

  /** `s` is the zero-free `names`, each terminated, then the zero-free `tail`. */
  predicate Decomposes(s: seq<Unit>, names: seq<seq<Unit>>, tail: seq<Unit>) {
    && (forall i :: 0 <= i < |names| ==> NoZero(names[i]))
    && NoZero(tail)
    && Join(names) + tail == s
  }

  /** Uniqueness: any zero-free strings whose terminated concatenation plus a
      zero-free tail is `s` are exactly `Split(s)`. */
  lemma {:induction false} SplitUnique(s: seq<Unit>, names: seq<seq<Unit>>, tail: seq<Unit>)
    requires Decomposes(s, names, tail)
    ensures Split(s) == names
    decreases |names|
  {
    if |names| == 0 {
      assert s == tail;
    } else {
      var n0 := names[0];
      var rest := Join(names[1..]) + tail;
      assert s == n0 + [0] + rest;
      assert s[|n0|] == 0;
      var k := FirstZero(s);
      assert k == |n0|;
      assert s[..k] == n0;
      assert s[k + 1..] == rest;
      SplitUnique(rest, names[1..], tail);
    }
  }

  /** Zero-free strings joined with terminators contain one zero per string. */
  lemma {:induction false} CountZerosJoin(names: seq<seq<Unit>>)
    requires forall i :: 0 <= i < |names| ==> NoZero(names[i])
    ensures CountZeros(Join(names)) == |names|
  {
    if |names| > 0 {
      CountZerosAppend(names[0], [0]);
      CountZerosAppend(names[0] + [0], Join(names[1..]));
      CountZerosNone(names[0]);
      assert CountZeros([0]) == 1;
      CountZerosJoin(names[1..]);
    }
  }

  /** The table holds one string per zero unit in it. */
  lemma {:induction false} SplitCount(s: seq<Unit>)
    ensures |Split(s)| == CountZeros(s)
  {
    SplitJoin(s);
    var j := |Join(Split(s))|;
    assert NoZero(s[j..]);
    assert s == s[..j] + s[j..];
    CountZerosAppend(s[..j], s[j..]);
    CountZerosNone(s[j..]);
    CountZerosJoin(Split(s));
  }

  /** The parser's loop: accumulate non-zero units, flush on a zero unit
      (possibly an empty string), drop what is pending at the end. */
  method ScanTable(bs: seq<byte>) returns (names: seq<seq<Unit>>)
    requires |bs| % 2 == 0
    ensures names == Split(Units(bs))
    ensures |names| == CountZeros(Units(bs))
  {
    ghost var us := Units(bs);
    names := [];
    var name: seq<Unit> := [];
    var i := 0;
    ghost var k := 0;
    while i < |bs|
      invariant 0 <= k <= |us| && i == 2 * k
      invariant forall j :: 0 <= j < |names| ==> NoZero(names[j])
      invariant NoZero(name)
      invariant Join(names) + name == us[..k]
    {
      var ch: Unit := LeDecode(bs[i..i + 2]);
      ScanStep(us, k, names, name);
      if ch == 0 {
        names := names + [name];
        name := [];
      } else {
        name := name + [ch];
      }
      i := i + 2;
      k := k + 1;
    }
    assert us[..k] == us;
    assert Decomposes(us, names, name);
    SplitUnique(us, names, name);
    SplitCount(us);
  }

  /** One iteration of `ScanTable`: flushing on a zero unit or extending the
      pending string keeps the scanned prefix equal to the strings so far,
      terminated, followed by the pending string. */
  lemma ScanStep(us: seq<Unit>, k: nat, names: seq<seq<Unit>>, name: seq<Unit>)
    requires k < |us| && Join(names) + name == us[..k]
    ensures us[k] == 0 ==> Join(names + [name]) + [] == us[..k + 1]
    ensures us[k] != 0 ==> Join(names) + (name + [us[k]]) == us[..k + 1]
  {
    assert us[..k + 1] == us[..k] + [us[k]];
    JoinAppend(names, name);
  }

  /** "abc\0de\0\0" decodes to "abc", "de" and an empty string; a trailing
      "f" with no terminator would be dropped. */
  lemma SplitExample()
    ensures Split([0x61, 0x62, 0x63, 0, 0x64, 0x65, 0, 0]) == [[0x61, 0x62, 0x63], [0x64, 0x65], []]
    ensures Split([0x61, 0x62, 0x63, 0, 0x64, 0x65, 0, 0, 0x66]) == [[0x61, 0x62, 0x63], [0x64, 0x65], []]
  {
    var names: seq<seq<Unit>> := [[0x61, 0x62, 0x63], [0x64, 0x65], []];
    assert Join(names) == [0x61, 0x62, 0x63, 0, 0x64, 0x65, 0, 0] by {
      JoinCons([], []);
      JoinCons([0x64, 0x65], [[]]);
      JoinCons([0x61, 0x62, 0x63], [[0x64, 0x65], []]);
      assert [[0x61, 0x62, 0x63]] + [[0x64, 0x65], []] == names;
    }
    SplitUnique(Join(names), names, []);
    SplitUnique(Join(names) + [0x66], names, [0x66]);
    assert Join(names) + [0x66] == [0x61, 0x62, 0x63, 0, 0x64, 0x65, 0, 0, 0x66];
  }
}
