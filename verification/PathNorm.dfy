/** bundle.py, `normalise_path`: rewriting "(^|/)./" to its first group until nothing changes. */
module PathNorm {
  // ------------------------------------------------------------- rewriting

  /** One left-to-right pass past the start of the string, where "^" no longer matches. */
  function SubRest(s: string): (r: string)
    ensures |r| <= |s|
  {
    if |s| >= 3 && s[..3] == "/./" then "/" + SubRest(s[3..])
    else if s == "" then ""
    else [s[0]] + SubRest(s[1..])
  }

  /** One substitution pass over the whole string. */
  function Sub(s: string): (r: string)
    ensures |r| <= |s|
  {
    if |s| >= 2 && s[..2] == "./" then SubRest(s[2..]) else SubRest(s)
  }

  /** A pass that changes anything shortens the string. */
  lemma {:induction false} SubRestShortens(s: string)
    ensures SubRest(s) == s || |SubRest(s)| < |s|
    decreases |s|
  {
    if !(|s| >= 3 && s[..3] == "/./") && s != "" {
      SubRestShortens(s[1..]);
      assert s == [s[0]] + s[1..];
    }
  }

  // -------------------------------------------------------------- segments

  /** Splitting on "/"; never empty. */
  function Split(s: string): (segments: seq<string>)
    ensures segments != []
  {
    if s == "" then [""]
    else
      var rest := Split(s[1..]);
      if s[0] == '/' then [""] + rest else [[s[0]] + rest[0]] + rest[1..]
  }

  function Join(segments: seq<string>): string {
    if segments == [] then ""
    else if |segments| == 1 then segments[0]
    else segments[0] + "/" + Join(segments[1..])
  }

  /** Every segment but a "." that is not the last, in order. */
  function Keep(segments: seq<string>): seq<string> {
    if |segments| <= 1 then segments
    else (if segments[0] == "." then [] else [segments[0]]) + Keep(segments[1..])
  }

  function Normalised(path: string): string {
    Join(Keep(Split(path)))
  }

  lemma SubShortens(s: string)
    ensures Sub(s) == s || |Sub(s)| < |s|
  {
    SubRestShortens(s);
  }

  predicate NoSlash(segment: string) {
    '/' !in segment
  }

  lemma {:induction false} SplitAt(a: string, b: string)
    requires NoSlash(a)
    ensures Split(a + "/" + b) == [a] + Split(b)
    decreases |a|
  {
    var s := a + "/" + b;
    if a == "" {
      assert s[1..] == b;
    } else {
      assert a[0] in a;
      assert forall c | c in a[1..] :: c in a;
      SplitAt(a[1..], b);
      assert s[1..] == a[1..] + "/" + b;
      assert s[0] == a[0] && [a[0]] + a[1..] == a;
    }
  }

  lemma SplitDot(s: string)
    requires |s| >= 2 && s[..2] == "./"
    ensures Split(s) == ["."] + Split(s[2..])
  {
    assert s == "." + "/" + s[2..];
    SplitAt(".", s[2..]);
  }

  lemma SplitMatch(s: string)
    requires |s| >= 3 && s[..3] == "/./"
    ensures Split(s) == [""] + (["."] + Split(s[3..]))
    ensures Split(SubRest(s)) == [""] + Split(SubRest(s[3..]))
  {
    var rest, t := s[1..], "/" + SubRest(s[3..]);
    assert s[0] == '/' && rest[..2] == "./" && rest[2..] == s[3..];
    SplitDot(rest);
    assert t[1..] == SubRest(s[3..]);
  }

  /** Away from the start a pass keeps the first segment, whether there are more, and what is
      kept of the others. */
  lemma {:induction false} SubRestKeeps(s: string)
    ensures Split(SubRest(s))[0] == Split(s)[0]
    ensures |Split(SubRest(s))| == 1 <==> |Split(s)| == 1
    ensures Keep(Split(SubRest(s))[1..]) == Keep(Split(s)[1..])
    ensures Keep(Split(SubRest(s))) == Keep(Split(s))
    decreases |s|
  {
    if |s| >= 3 && s[..3] == "/./" {
      SubRestKeeps(s[3..]);
      SplitMatch(s);
    } else if s != "" {
      SubRestKeeps(s[1..]);
      var t := [s[0]] + SubRest(s[1..]);
      assert t[1..] == SubRest(s[1..]);
    }
  }

  lemma SubKeeps(s: string)
    ensures Keep(Split(Sub(s))) == Keep(Split(s))
  {
    if |s| >= 2 && s[..2] == "./" {
      SubRestKeeps(s[2..]);
      SplitDot(s);
    } else {
      SubRestKeeps(s);
    }
  }

  lemma {:induction false} DotFirst(s: string)
    requires Split(s)[0] == "." && |Split(s)| > 1
    ensures |s| >= 2 && s[..2] == "./"
  {
    var rest := Split(s[1..]);
    assert s != "" && s[0] != '/';
    assert Split(s)[0] == [s[0]] + rest[0];
    assert |rest[0]| == 0 && |rest| > 1;
    assert s[1..] != "" && s[1..][0] == '/';
  }

  lemma {:induction false} FixedRest(s: string)
    requires SubRest(s) == s
    ensures Keep(Split(s)[1..]) == Split(s)[1..]
    decreases |s|
  {
    if s != "" {
      assert SubRest(s)[1..] == SubRest(s[1..]);
      FixedRest(s[1..]);
      if s[0] == '/' {
        var u := s[1..];
        if Split(u)[0] == "." && |Split(u)| > 1 {
          DotFirst(u);
          assert s[..3] == "/" + u[..2];
        }
        assert Split(u) == [Split(u)[0]] + Split(u)[1..];
        assert Split(s)[1..] == Split(u);
      } else {
        assert Split(s)[1..] == Split(s[1..])[1..];
      }
    }
  }

  /** A string no pass changes has nothing left to drop. */
  lemma FixedKeeps(s: string)
    requires Sub(s) == s
    ensures Keep(Split(s)) == Split(s)
  {
    FixedRest(s);
    if Split(s)[0] == "." && |Split(s)| > 1 {
      DotFirst(s);
    }
    assert Split(s) == [Split(s)[0]] + Split(s)[1..];
  }

  lemma {:induction false} JoinSplit(s: string)
    ensures Join(Split(s)) == s
    decreases |s|
  {
    if s != "" {
      JoinSplit(s[1..]);
      var rest := Split(s[1..]);
      assert s == [s[0]] + s[1..];
      if s[0] == '/' {
        assert ([""] + rest)[1..] == rest;
      } else {
        var all := [[s[0]] + rest[0]] + rest[1..];
        assert all[1..] == rest[1..];
        assert |rest| > 1 ==> Join(rest) == rest[0] + "/" + Join(rest[1..]);
      }
    }
  }

  method NormalisePath(path: string) returns (result: string)
    ensures result == Normalised(path) && Sub(result) == result
  {
    result := path;
    var changed := true;
    while changed
      invariant Keep(Split(result)) == Keep(Split(path))
      invariant !changed ==> Sub(result) == result
      decreases |result|, changed
    {
      var prev := result;
      SubKeeps(prev);
      SubShortens(prev);
      result := Sub(prev);
      changed := result != prev;
    }
    FixedKeeps(result);
    JoinSplit(result);
  }

  // ----------------------------------------------------- what results mean

  lemma {:induction false} SplitPlain(s: string)
    requires NoSlash(s)
    ensures Split(s) == [s]
    decreases |s|
  {
    if s != "" {
      assert s[0] in s;
      assert forall c | c in s[1..] :: c in s;
      SplitPlain(s[1..]);
      assert [s[0]] + s[1..] == s;
    }
  }

  lemma {:induction false} SplitJoin(segments: seq<string>)
    requires segments != [] && forall x | x in segments :: NoSlash(x)
    ensures Split(Join(segments)) == segments
    decreases |segments|
  {
    if |segments| == 1 {
      SplitPlain(segments[0]);
    } else {
      SplitJoin(segments[1..]);
      SplitAt(segments[0], Join(segments[1..]));
    }
  }

  lemma {:induction false} SplitNoSlash(s: string)
    ensures forall x | x in Split(s) :: NoSlash(x)
    decreases |s|
  {
    if s != "" {
      SplitNoSlash(s[1..]);
      var rest := Split(s[1..]);
      assert NoSlash(rest[0]);
      forall x | x in Split(s) ensures NoSlash(x) {
        assert x == "" || x == [s[0]] + rest[0] || x in rest;
      }
    }
  }

  lemma {:induction false} KeepFacts(segments: seq<string>)
    requires segments != []
    ensures Keep(segments) != [] && (forall x | x in Keep(segments) :: x in segments)
    ensures Keep(segments)[|Keep(segments)| - 1] == segments[|segments| - 1]
    ensures forall i | 0 <= i < |Keep(segments)| - 1 :: Keep(segments)[i] != "."
    decreases |segments|
  {
    if |segments| > 1 {
      KeepFacts(segments[1..]);
    }
  }

  lemma {:induction false} KeepAll(segments: seq<string>)
    requires forall i | 0 <= i < |segments| - 1 :: segments[i] != "."
    ensures Keep(segments) == segments
    decreases |segments|
  {
    if |segments| > 1 {
      KeepAll(segments[1..]);
    }
  }

  /** The segments of the result are the kept ones of the input, no segment but the last is
      ".", and the last is the input's last. */
  lemma NormalisedSegments(path: string)
    ensures Split(Normalised(path)) == Keep(Split(path))
    ensures forall i | 0 <= i < |Split(Normalised(path))| - 1 :: Split(Normalised(path))[i] != "."
    ensures Split(Normalised(path))[|Split(Normalised(path))| - 1] == Split(path)[|Split(path)| - 1]
  {
    SplitNoSlash(path);
    KeepFacts(Split(path));
    SplitJoin(Keep(Split(path)));
  }

  lemma NormalisedIdempotent(path: string)
    ensures Normalised(Normalised(path)) == Normalised(path)
  {
    NormalisedSegments(path);
    KeepAll(Split(Normalised(path)));
  }

  lemma {:induction false} KeepShorter(segments: seq<string>)
    requires segments != []
    ensures |Join(Keep(segments))| <= |Join(segments)|
    decreases |segments|
  {
    if |segments| > 1 {
      var first, rest := segments[0], segments[1..];
      KeepShorter(rest);
      KeepFacts(rest);
      assert segments == [first] + rest;
      if first == "." {
        assert Keep(segments) == Keep(rest);
      }
    }
  }

  lemma NormalisedNoLonger(path: string)
    ensures |Normalised(path)| <= |path|
  {
    JoinSplit(path);
    KeepShorter(Split(path));
  }

  /** A string is its own normal form exactly if one pass leaves it alone. */
  lemma NormalIffFixed(path: string)
    ensures Normalised(path) == path <==> Sub(path) == path
  {
    JoinSplit(path);
    if Sub(path) == path {
      FixedKeeps(path);
    } else {
      SubKeeps(path);
      SubShortens(path);
      NormalisedNoLonger(Sub(path));
    }
  }
}
