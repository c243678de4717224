/** The regular-expression capability the filter relies on. The engine is
    not modelled: an `Engine` supplies which expressions compile and the
    unanchored search that `(*Regexp).MatchString` performs. Any matcher with
    those two operations (exact string, glob, a real regex library) can be
    plugged in. */
module Regex {
  import opened Wrappers

  datatype Engine = Engine(compiles: string -> bool, search: (string, string) -> bool)

  /** A compiled expression, identified by its source text. */
  datatype Regexp = Regexp(expr: string)

  /** `regexp.Compile`: absent exactly when the engine rejects the syntax. */
  function Compile(eng: Engine, expr: string): Option<Regexp> {
    if eng.compiles(expr) then Some(Regexp(expr)) else None
  }

  /** `(*Regexp).MatchString`: does the expression occur somewhere in `s`. */
  predicate MatchString(eng: Engine, re: Regexp, s: string) {
    eng.search(re.expr, s)
  }

  /** `needle` occurs as a contiguous piece of `hay`. */
  predicate Occurs(needle: string, hay: string)
    decreases |hay|
  {
    || (|needle| <= |hay| && hay[..|needle|] == needle)
    || (|hay| > 0 && Occurs(needle, hay[1..]))
  }

  predicate OccursAt(needle: string, hay: string, i: int) {
    0 <= i <= |hay| - |needle| && hay[i..i + |needle|] == needle
  }

  /** The recursive search finds `needle` exactly when it sits at some
      position of `hay`. */
  lemma {:induction false} OccursIff(needle: string, hay: string)
    ensures Occurs(needle, hay) <==> exists i :: OccursAt(needle, hay, i)
    decreases |hay|
  {
    if |needle| <= |hay| && hay[..|needle|] == needle {
      assert OccursAt(needle, hay, 0);
    }
    if |hay| > 0 {
      OccursIff(needle, hay[1..]);
      if Occurs(needle, hay[1..]) {
        var i :| OccursAt(needle, hay[1..], i);
        assert hay[i + 1..i + 1 + |needle|] == hay[1..][i..i + |needle|];
        assert OccursAt(needle, hay, i + 1);
      }
      if exists i :: OccursAt(needle, hay, i) {
        var i :| OccursAt(needle, hay, i);
        if i > 0 {
          assert hay[1..][i - 1..i - 1 + |needle|] == hay[i..i + |needle|];
          assert OccursAt(needle, hay[1..], i - 1);
        }
      }
    } else if exists i :: OccursAt(needle, hay, i) {
      var i :| OccursAt(needle, hay, i);
      assert i == 0;
    }
  }

  /** A literal matcher: every pattern compiles and matches wherever its text
      occurs. On patterns without metacharacters (`MJ12bot`, `VN`) this is
      exactly what an unanchored regular-expression search does. */
  const Literal: Engine := Engine(_ => true, (p, s) => Occurs(p, s))
}
