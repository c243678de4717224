/** The two `strings` helpers the filter uses: `strings.Split` with a
    one-character separator and `strings.TrimSpace`. */
module Text {

  /** Go's `unicode.IsSpace`: the ASCII white space characters, U+0085,
      U+00A0 and the Unicode `Zs`/line/paragraph separators. */
  predicate IsSpace(c: char) {
    || c == ' ' || c == '\t' || c == '\n' || c == '\r'
    || c as int == 0x0B || c as int == 0x0C
    || c as int == 0x85 || c as int == 0xA0 || c as int == 0x1680
    || (0x2000 <= c as int <= 0x200A)
    || c as int == 0x2028 || c as int == 0x2029 || c as int == 0x202F
    || c as int == 0x205F || c as int == 0x3000
  }

  predicate AllSpace(s: string) {
    forall i :: 0 <= i < |s| ==> IsSpace(s[i])
  }

  /** `strings.Join(parts, string(sep))`: the inverse of `Split`. */
  function Join(parts: seq<string>, sep: char): string
    requires |parts| > 0
  {
    if |parts| == 1 then parts[0] else parts[0] + [sep] + Join(parts[1..], sep)
  }

  /** `strings.Split(s, string(sep))`: the pieces of `s` between separators.
      There is always one more piece than separators, so the empty string
      splits into one empty piece. */
  function Split(s: string, sep: char): (parts: seq<string>)
    ensures |parts| > 0
    decreases |s|
  {
    if |s| == 0 then [""]
    else
      var rest := Split(s[1..], sep);
      if s[0] == sep then [""] + rest
      else [[s[0]] + rest[0]] + rest[1..]
  }

  /** No piece holds the separator, and joining the pieces back gives the
      original string. */
  lemma {:induction false} SplitJoin(s: string, sep: char)
    ensures forall i, k :: 0 <= i < |Split(s, sep)| && 0 <= k < |Split(s, sep)[i]| ==> Split(s, sep)[i][k] != sep
    ensures Join(Split(s, sep), sep) == s
    decreases |s|
  {
    if |s| > 0 {
      SplitJoin(s[1..], sep);
      var rest := Split(s[1..], sep);
      if s[0] == sep {
        assert Split(s, sep) == [""] + rest;
        assert Split(s, sep)[1..] == rest;
      } else {
        var parts := Split(s, sep);
        assert parts == [[s[0]] + rest[0]] + rest[1..];
        forall i, k | 0 <= i < |parts| && 0 <= k < |parts[i]| ensures parts[i][k] != sep {
          if i == 0 {
            if k > 0 {
              assert parts[0][k] == rest[0][k - 1];
            }
          } else {
            assert parts[i] == rest[i];
          }
        }
        if |rest| > 1 {
          assert parts[1..] == rest[1..];
          assert Join(rest, sep) == rest[0] + [sep] + Join(rest[1..], sep);
          assert s == [s[0]] + s[1..];
        }
      }
    }
  }

  /** The other half of the round trip: pieces free of the separator are
      recovered by splitting their join. */
  lemma {:induction false} SplitOfJoin(parts: seq<string>, sep: char)
    requires |parts| > 0
    requires forall i, k :: 0 <= i < |parts| && 0 <= k < |parts[i]| ==> parts[i][k] != sep
    ensures Split(Join(parts, sep), sep) == parts
    decreases |parts|
  {
    var p := parts[0];
    if |parts| == 1 {
      SplitNone(p, sep);
    } else {
      var rest := Join(parts[1..], sep);
      var s := p + [sep] + rest;
      assert forall i :: 0 <= i < |p| ==> s[i] == p[i];
      SplitAt(s, sep, |p|);
      assert s[..|p|] == p;
      assert s[|p| + 1..] == rest;
      SplitOfJoin(parts[1..], sep);
      assert parts == [p] + parts[1..];
    }
  }

  /** Splitting at the first separator. */
  lemma {:induction false} SplitAt(s: string, sep: char, k: nat)
    requires k < |s| && s[k] == sep
    requires forall i :: 0 <= i < k ==> s[i] != sep
    ensures Split(s, sep) == [s[..k]] + Split(s[k + 1..], sep)
    decreases k
  {
    if k > 0 {
      SplitAt(s[1..], sep, k - 1);
      assert s[1..][k..] == s[k + 1..];
      assert s[..k] == [s[0]] + s[1..][..k - 1];
    }
  }

  /** A string without the separator is its own single piece. */
  lemma {:induction false} SplitNone(s: string, sep: char)
    requires forall i :: 0 <= i < |s| ==> s[i] != sep
    ensures Split(s, sep) == [s]
    decreases |s|
  {
    if |s| > 0 {
      SplitNone(s[1..], sep);
      assert [s[0]] + s[1..] == s;
    }
  }

  /** `f` is the text of `s` before its first `sep`, or all of `s` when
      there is none. */
  predicate LeadingPiece(s: string, sep: char, f: string) {
    && |f| <= |s| && s[..|f|] == f
    && (forall k :: 0 <= k < |f| ==> f[k] != sep)
    && (|f| == |s| || s[|f|] == sep)
  }

  /** The first piece of a split is everything before the first separator. */
  lemma {:induction false} SplitFirst(s: string, sep: char, f: string)
    requires LeadingPiece(s, sep, f)
    ensures Split(s, sep)[0] == f
    decreases |s|
  {
    if |s| == 0 {
    } else if s[0] == sep {
    } else {
      assert |f| > 0;
      assert s[1..][..|f| - 1] == f[1..];
      SplitFirst(s[1..], sep, f[1..]);
      assert f == [s[0]] + f[1..];
    }
  }

  /** `s` without its leading white space (helper of `TrimSpace`). */
  function DropLeft(s: string): string
    decreases |s|
  {
    if |s| > 0 && IsSpace(s[0]) then DropLeft(s[1..]) else s
  }

  /** `s` without its trailing white space (helper of `TrimSpace`). */
  function DropRight(s: string): string
    decreases |s|
  {
    if |s| > 0 && IsSpace(s[|s| - 1]) then DropRight(s[..|s| - 1]) else s
  }

  /** `DropLeft` removes exactly the longest all-space prefix: it returns
      the suffix from `i`, where everything before `i` is space and the
      character at `i`, if any, is not. */
  lemma {:induction false} DropLeftWindow(s: string) returns (i: nat)
    ensures i <= |s| && DropLeft(s) == s[i..]
    ensures AllSpace(s[..i])
    ensures i == |s| || !IsSpace(s[i])
    decreases |s|
  {
    if |s| > 0 && IsSpace(s[0]) {
      var k := DropLeftWindow(s[1..]);
      i := k + 1;
      assert s[1..][k..] == s[i..];
      forall m | 0 <= m < i ensures IsSpace(s[..i][m]) {
        if m > 0 {
          assert s[..i][m] == s[1..][..k][m - 1];
        }
      }
    } else {
      i := 0;
    }
  }

  /** `DropRight` removes exactly the longest all-space suffix: it returns
      the prefix up to `j`, where everything from `j` on is space and the
      character before `j`, if any, is not. */
  lemma {:induction false} DropRightWindow(s: string) returns (j: nat)
    ensures j <= |s| && DropRight(s) == s[..j]
    ensures AllSpace(s[j..])
    ensures j == 0 || !IsSpace(s[j - 1])
    decreases |s|
  {
    if |s| > 0 && IsSpace(s[|s| - 1]) {
      var t := s[..|s| - 1];
      j := DropRightWindow(t);
      assert t[..j] == s[..j];
      forall m | 0 <= m < |s| - j ensures IsSpace(s[j..][m]) {
        if j + m < |t| {
          assert s[j..][m] == t[j..][m];
        }
      }
    } else {
      j := |s|;
    }
  }

  /** A string whose first character is not space loses nothing on the left. */
  lemma DropLeftStops(s: string)
    requires |s| == 0 || !IsSpace(s[0])
    ensures DropLeft(s) == s
  {
  }

  /** A string whose last character is not space loses nothing on the right. */
  lemma DropRightStops(s: string)
    requires |s| == 0 || !IsSpace(s[|s| - 1])
    ensures DropRight(s) == s
  {
  }

  /** `strings.TrimSpace`: `s` with its longest white-space prefix and
      suffix removed. The result sits inside `s` between two all-space runs
      and neither starts nor ends with space, which makes it unique. */
  function TrimSpace(s: string): string {
    DropRight(DropLeft(s))
  }

  /** What trimming keeps: a piece of `s` between two all-space runs. */
  lemma TrimSpaceSpec(s: string)
    ensures exists i, j :: 0 <= i <= j <= |s| && TrimSpace(s) == s[i..j] && AllSpace(s[..i]) && AllSpace(s[j..])
  {
    var i, j := TrimSpaceWindow(s);
  }

  lemma TrimSpaceWindow(s: string) returns (i: nat, j: nat)
    ensures i <= j <= |s| && TrimSpace(s) == s[i..j] && AllSpace(s[..i]) && AllSpace(s[j..])
  {
    i := DropLeftWindow(s);
    var l := s[i..];
    var k := DropRightWindow(l);
    j := i + k;
    assert l[..k] == s[i..j];
    assert l[k..] == s[j..];
  }

  /** ... and that piece neither starts nor ends with space. */
  lemma TrimSpaceEnds(s: string)
    ensures |TrimSpace(s)| == 0 || (!IsSpace(TrimSpace(s)[0]) && !IsSpace(TrimSpace(s)[|TrimSpace(s)| - 1]))
  {
    var i := DropLeftWindow(s);
    var l := s[i..];
    var k := DropRightWindow(l);
    var r := l[..k];
    assert TrimSpace(s) == r;
    if k > 0 {
      assert r[0] == l[0] == s[i];
      assert r[k - 1] == l[k - 1];
    }
  }

  /** A string that neither starts nor ends with space is left alone, so
      trimming is idempotent. */
  lemma TrimSpaceKeeps(s: string)
    requires |s| == 0 || (!IsSpace(s[0]) && !IsSpace(s[|s| - 1]))
    ensures TrimSpace(s) == s
  {
    DropLeftStops(s);
    DropRightStops(s);
  }

  /** Trimming yields the empty string exactly when `s` is all white space. */
  lemma TrimSpaceEmpty(s: string)
    ensures TrimSpace(s) == "" <==> AllSpace(s)
  {
    var r := TrimSpace(s);
    var i, j := TrimSpaceWindow(s);
    if AllSpace(s) {
      var d := DropLeftWindow(s);
      assert d == |s|;
      assert DropLeft(s) == "";
    }
    if r == "" {
      forall k | 0 <= k < |s| ensures IsSpace(s[k]) {
        if k < i {
          assert s[k] == s[..i][k];
        } else {
          assert s[k] == s[j..][k - j];
        }
      }
    }
  }
}
