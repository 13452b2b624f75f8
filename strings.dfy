/** Optional values, standing for Python's `None` or a value. */
module Wrappers {
  datatype Option<+T> = None | Some(value: T)
}

/**
 The string operations of Python that the tea graph uses: `str.lower()`,
 `str.strip()`, `str.split(",")` and the substring test `a in b`.
 */
module Strings {

  /** Python's `str.isspace()` for one character: the characters `str.strip()` removes. */
  predicate IsSpace(c: char)
  {
    var k := c as int;
    || (9 <= k <= 13) || (28 <= k <= 32) || k == 0x85 || k == 0xA0 || k == 0x1680
    || (0x2000 <= k <= 0x200A) || k == 0x2028 || k == 0x2029 || k == 0x202F
    || k == 0x205F || k == 0x3000
  }

  /** Lower-casing of one character (ASCII letters only). */
  function LowerChar(c: char): char
  {
    if 'A' <= c <= 'Z' then (c as int + 32) as char else c
  }

  /** `s.lower()`, restricted to ASCII letters. */
  function Lower(s: string): (r: string)
    ensures |r| == |s|
  {
    if s == [] then [] else [LowerChar(s[0])] + Lower(s[1..])
  }

  lemma {:induction false} LowerIdempotent(s: string)
    ensures Lower(Lower(s)) == Lower(s)
  {
    if s != [] {
      LowerIdempotent(s[1..]);
      assert Lower(s)[1..] == Lower(s[1..]);
    }
  }

  /** `sub in s`: `sub` occurs as a contiguous piece of `s` (the empty string occurs everywhere). */
  function Contains(s: string, sub: string): bool
  {
    (|sub| <= |s| && s[..|sub|] == sub) || (|s| > 0 && Contains(s[1..], sub))
  }

  /** Reference definition of `sub in s` by an occurrence index. */
  ghost predicate OccursAt(s: string, sub: string, i: int)
  {
    0 <= i && i + |sub| <= |s| && s[i..i + |sub|] == sub
  }

  lemma {:induction false} ContainsIffOccurs(s: string, sub: string)
    ensures Contains(s, sub) <==> exists i :: OccursAt(s, sub, i)
  {
    if |sub| <= |s| && s[..|sub|] == sub {
      assert OccursAt(s, sub, 0);
    } else if |s| > 0 {
      ContainsIffOccurs(s[1..], sub);
      if Contains(s[1..], sub) {
        var i :| OccursAt(s[1..], sub, i);
        assert s[1..][i..i + |sub|] == s[i + 1..i + 1 + |sub|];
        assert OccursAt(s, sub, i + 1);
      }
      if i :| OccursAt(s, sub, i) {
        assert i != 0;
        assert s[1..][i - 1..i - 1 + |sub|] == s[i..i + |sub|];
        assert OccursAt(s[1..], sub, i - 1);
      }
    }
  }

  /** Every string contains itself, so an exact match is also a substring match. */
  lemma ContainsSelf(s: string)
    ensures Contains(s, s)
  {
    assert s[..|s|] == s;
  }

  /**
   `s.strip()`: whitespace removed from both ends. It is the slice of `s` with
   only whitespace around it that neither starts nor ends with whitespace
   (`StripSpec`).
   */
  function Strip(s: string): (r: string)
    ensures |r| <= |s|
  {
    if s != [] && IsSpace(s[0]) then Strip(s[1..])
    else if s != [] && IsSpace(s[|s| - 1]) then Strip(s[..|s| - 1])
    else s
  }

  /** `r` is the slice of `s` at `i`, with only whitespace around it. */
  ghost predicate StripsAt(s: string, r: string, i: int)
  {
    && 0 <= i <= |s| - |r| && r == s[i..i + |r|]
    && (forall k :: 0 <= k < i ==> IsSpace(s[k]))
    && (forall k :: i + |r| <= k < |s| ==> IsSpace(s[k]))
  }

  /** A leading whitespace character moves the slice one place right. */
  lemma StripsAtFront(s: string, r: string, i: int)
    requires s != [] && IsSpace(s[0]) && StripsAt(s[1..], r, i)
    ensures StripsAt(s, r, i + 1)
  {
    assert s[1..][i..i + |r|] == s[i + 1..i + 1 + |r|];
    forall k | 0 <= k < i + 1 ensures IsSpace(s[k]) {
      if k > 0 {
        assert s[k] == s[1..][k - 1];
      }
    }
    forall k | i + 1 + |r| <= k < |s| ensures IsSpace(s[k]) {
      assert s[k] == s[1..][k - 1];
    }
  }

  /** A trailing whitespace character leaves the slice where it was. */
  lemma StripsAtBack(s: string, r: string, i: int)
    requires s != [] && IsSpace(s[|s| - 1]) && StripsAt(s[..|s| - 1], r, i)
    ensures StripsAt(s, r, i)
  {
    assert s[..|s| - 1][i..i + |r|] == s[i..i + |r|];
    forall k | 0 <= k < i ensures IsSpace(s[k]) {
      assert s[k] == s[..|s| - 1][k];
    }
    forall k | i + |r| <= k < |s| ensures IsSpace(s[k]) {
      if k < |s| - 1 {
        assert s[k] == s[..|s| - 1][k];
      }
    }
  }

  lemma {:induction false} StripSpec(s: string)
    ensures exists i :: StripsAt(s, Strip(s), i)
    ensures Strip(s) == [] || (!IsSpace(Strip(s)[0]) && !IsSpace(Strip(s)[|Strip(s)| - 1]))
  {
    var r := Strip(s);
    if s != [] && IsSpace(s[0]) {
      StripSpec(s[1..]);
      var i :| StripsAt(s[1..], r, i);
      StripsAtFront(s, r, i);
    } else if s != [] && IsSpace(s[|s| - 1]) {
      StripSpec(s[..|s| - 1]);
      var i :| StripsAt(s[..|s| - 1], r, i);
      StripsAtBack(s, r, i);
    } else {
      assert StripsAt(s, s, 0);
    }
  }

  lemma StripIdempotent(s: string)
    ensures Strip(Strip(s)) == Strip(s)
  {
    StripSpec(s);
  }

  /** The names the graph uses as node keys: `s.strip().lower()`. */
  function Norm(s: string): (r: string)
    ensures |r| <= |s|
  {
    Lower(Strip(s))
  }

  /** `s.split(",")`: the pieces between commas, always at least one. */
  function Split(s: string): (r: seq<string>)
    ensures |r| >= 1
    ensures forall k :: 0 <= k < |r| ==> ',' !in r[k]
  {
    if s == [] then [""]
    else
      var rest := Split(s[1..]);
      if s[0] == ',' then [""] + rest
      else [[s[0]] + rest[0]] + rest[1..]
  }

  /** `",".join(parts)`, the inverse of `Split`. */
  function Join(parts: seq<string>): string
    requires |parts| >= 1
  {
    if |parts| == 1 then parts[0] else parts[0] + "," + Join(parts[1..])
  }

  lemma {:induction false} JoinSplit(s: string)
    ensures Join(Split(s)) == s
  {
    if s != [] {
      JoinSplit(s[1..]);
      var rest := Split(s[1..]);
      if s[0] != ',' {
        if |rest| == 1 {
          assert Join(Split(s)) == [s[0]] + rest[0];
        } else {
          assert Split(s)[1..] == rest[1..];
          assert Join(Split(s)) == [s[0]] + rest[0] + "," + Join(rest[1..]);
        }
      }
    }
  }

  lemma {:induction false} SplitJoin(parts: seq<string>)
    requires |parts| >= 1
    requires forall k :: 0 <= k < |parts| ==> ',' !in parts[k]
    ensures Split(Join(parts)) == parts
  {
    if |parts| == 1 {
      SplitPiece(parts[0]);
    } else {
      SplitJoin(parts[1..]);
      SplitPieceComma(parts[0], Join(parts[1..]));
    }
  }

  lemma {:induction false} SplitPiece(p: string)
    requires ',' !in p
    ensures Split(p) == [p]
  {
    if p != [] {
      SplitPiece(p[1..]);
      assert [p[0]] + p[1..] == p;
    }
  }

  lemma {:induction false} SplitPieceComma(p: string, t: string)
    requires ',' !in p
    ensures Split(p + "," + t) == [p] + Split(t)
  {
    if p == [] {
      assert p + "," + t == [','] + t;
      assert (p + "," + t)[1..] == t;
    } else {
      assert (p + "," + t)[1..] == p[1..] + "," + t;
      SplitPieceComma(p[1..], t);
      assert [p[0]] + p[1..] == p;
    }
  }

  /** The stripped comma-separated pieces of `s`: `[f.strip() for f in s.split(",")]`. */
  function Tokens(s: string): (r: seq<string>)
    ensures |r| == |Split(s)|
    ensures forall k {:trigger r[k]} :: 0 <= k < |r| ==> r[k] == Strip(Split(s)[k])
  {
    MapStrip(Split(s))
  }

  function MapStrip(parts: seq<string>): (r: seq<string>)
    ensures |r| == |parts|
    ensures forall k {:trigger r[k]} :: 0 <= k < |r| ==> r[k] == Strip(parts[k])
  {
    if parts == [] then [] else MapStrip(parts[..|parts| - 1]) + [Strip(parts[|parts| - 1])]
  }

  /** The normalised comma-separated pieces of `s`: `[t.strip().lower() for t in s.split(",")]`. */
  function NormTokens(s: string): (r: seq<string>)
    ensures |r| == |Split(s)|
    ensures forall k {:trigger r[k]} :: 0 <= k < |r| ==> r[k] == Norm(Split(s)[k])
  {
    MapNorm(Split(s))
  }

  function MapNorm(parts: seq<string>): (r: seq<string>)
    ensures |r| == |parts|
    ensures forall k {:trigger r[k]} :: 0 <= k < |r| ==> r[k] == Norm(parts[k])
  {
    if parts == [] then [] else MapNorm(parts[..|parts| - 1]) + [Norm(parts[|parts| - 1])]
  }
}
