/**
 * The PHP string built-ins the controller relies on (`explode`,
 * `str_replace` of one character, `ucwords`, `lcfirst`), over `string` as a
 * sequence of characters, with `LowerAll` for the case folding inside
 * `method_exists` and `Implode` as the reference definition behind the
 * `explode` round trips. Case mapping is ASCII only, which is what these
 * built-ins do when no locale is involved.
 */
module PhpStrings {

  /** ASCII upper-casing of one character. */
  function Upper(c: char): char
  {
    if 'a' <= c <= 'z' then (c as int - 32) as char else c
  }

  /** ASCII lower-casing of one character. */
  function Lower(c: char): char
  {
    if 'A' <= c <= 'Z' then (c as int + 32) as char else c
  }

  /** The characters `ucwords` treats as word delimiters by default: space, \t, \r, \n, \f, \v. */
  predicate IsWordDelimiter(c: char)
  {
    c == ' ' || c == '\t' || c == '\r' || c == '\n' || c as int == 11 || c as int == 12
  }

  /** Number of occurrences of `c` in `s`. */
  function Count(s: string, c: char): nat
  {
    if s == [] then 0 else (if s[0] == c then 1 else 0) + Count(s[1..], c)
  }

  /**
   * `explode(d, s)`: the pieces of `s` between occurrences of `d`. There is
   * always one more piece than there are separators, and no piece holds `d`.
   */
  function Explode(s: string, d: char): (pieces: seq<string>)
    ensures |pieces| == Count(s, d) + 1
    ensures forall i :: 0 <= i < |pieces| ==> d !in pieces[i]
  {
    if s == [] then [[]]
    else
      var rest := Explode(s[1..], d);
      if s[0] == d then [[]] + rest
      else [[s[0]] + rest[0]] + rest[1..]
  }

  /** The pieces joined with `d` between neighbours (`implode`): the reference for the `explode` round trips. */
  function Implode(pieces: seq<string>, d: char): string
    requires |pieces| > 0
  {
    if |pieces| == 1 then pieces[0] else pieces[0] + [d] + Implode(pieces[1..], d)
  }

  /** `str_replace(from, to, s)` for single characters: every `from` becomes `to`, nothing else moves. */
  function ReplaceChar(s: string, from: char, to: char): (r: string)
    ensures |r| == |s|
    ensures forall i :: 0 <= i < |s| ==> r[i] == (if s[i] == from then to else s[i])
  {
    if s == [] then [] else [if s[0] == from then to else s[0]] + ReplaceChar(s[1..], from, to)
  }

  /** `str_replace(c, '', s)`: `s` with every `c` dropped. */
  function RemoveChar(s: string, c: char): (r: string)
    ensures c !in r
    ensures forall x :: x in r ==> x in s
    ensures c !in s ==> r == s
    ensures |r| == |s| - Count(s, c)
  {
    if s == [] then [] else (if s[0] == c then [] else [s[0]]) + RemoveChar(s[1..], c)
  }

  /**
   * `ucwords` from a given state: `atWordStart` says whether the character
   * before `s` ended a word (or `s` starts the string).
   */
  function UcWordsFrom(s: string, atWordStart: bool): (r: string)
    ensures |r| == |s|
    ensures forall i :: 0 <= i < |s| ==>
      r[i] == (if (if i == 0 then atWordStart else IsWordDelimiter(s[i - 1])) then Upper(s[i]) else s[i])
  {
    if s == [] then []
    else [if atWordStart then Upper(s[0]) else s[0]] + UcWordsFrom(s[1..], IsWordDelimiter(s[0]))
  }

  /**
   * `ucwords(s)`: the first character, and every character that follows a
   * word delimiter, is upper-cased; all other characters are kept.
   */
  function UcWords(s: string): (r: string)
    ensures |r| == |s|
    ensures forall i :: 0 <= i < |s| ==>
      r[i] == (if i == 0 || IsWordDelimiter(s[i - 1]) then Upper(s[i]) else s[i])
  {
    UcWordsFrom(s, true)
  }

  /** `lcfirst(s)`: the first character lower-cased, the others kept. */
  function LcFirst(s: string): (r: string)
    ensures |r| == |s|
    ensures |s| > 0 ==> r[0] == Lower(s[0])
    ensures forall i :: 0 < i < |s| ==> r[i] == s[i]
  {
    if s == [] then [] else [Lower(s[0])] + s[1..]
  }

  /** Every character lower-cased: the folding `method_exists` applies to both names. */
  function LowerAll(s: string): (r: string)
    ensures |r| == |s|
    ensures forall i :: 0 <= i < |s| ==> r[i] == Lower(s[i])
  {
    if s == [] then [] else [Lower(s[0])] + LowerAll(s[1..])
  }

  /** Exploding and imploding again gives back the original string. */
  lemma {:induction false} ImplodeExplode(s: string, d: char)
    ensures Implode(Explode(s, d), d) == s
  {
    if s != [] {
      var rest := Explode(s[1..], d);
      ImplodeExplode(s[1..], d);
      if s[0] == d {
        assert Implode([[]] + rest, d) == [] + [d] + Implode(rest, d);
      } else if |rest| == 1 {
        assert Explode(s, d) == [[s[0]] + rest[0]];
      } else {
        var pieces := Explode(s, d);
        assert pieces[1..] == rest[1..];
        assert Implode(rest, d) == rest[0] + [d] + Implode(rest[1..], d);
        assert Implode(pieces, d) == [s[0]] + rest[0] + [d] + Implode(rest[1..], d);
        assert s == [s[0]] + s[1..];
      }
    }
  }

  /**
   * Removal works piece by piece: a single character is dropped exactly when
   * it is `c`, and removing from a concatenation concatenates the removals.
   * Together these fix every character of the result and its order.
   */
  lemma {:induction false} RemoveCharAppend(a: string, b: string, c: char)
    ensures RemoveChar(a + b, c) == RemoveChar(a, c) + RemoveChar(b, c)
    ensures forall x :: RemoveChar([x], c) == (if x == c then [] else [x])
  {
    if a == [] {
      assert a + b == b;
    } else {
      assert (a + b)[0] == a[0] && (a + b)[1..] == a[1..] + b;
      RemoveCharAppend(a[1..], b, c);
      var head := if a[0] == c then [] else [a[0]];
      assert head + (RemoveChar(a[1..], c) + RemoveChar(b, c))
          == (head + RemoveChar(a[1..], c)) + RemoveChar(b, c);
    }
    forall x ensures RemoveChar([x], c) == (if x == c then [] else [x]) {
      assert [x][1..] == [];
    }
  }

  /** A piece without the separator, followed by the separator, explodes to that piece first. */
  lemma {:induction false} ExplodePiece(w: string, t: string, d: char)
    requires d !in w
    ensures Explode(w + [d] + t, d) == [w] + Explode(t, d)
    ensures Explode(w, d) == [w]
  {
    if w == [] {
      assert w + [d] + t == [d] + t;
      assert ([d] + t)[1..] == t;
    } else {
      ExplodePiece(w[1..], t, d);
      assert (w + [d] + t)[1..] == w[1..] + [d] + t;
      assert [w[0]] + w[1..] == w;
    }
  }

  /** Imploding pieces that do not contain the separator and exploding again gives back the pieces. */
  lemma {:induction false} ExplodeImplode(pieces: seq<string>, d: char)
    requires |pieces| > 0
    requires forall i :: 0 <= i < |pieces| ==> d !in pieces[i]
    ensures Explode(Implode(pieces, d), d) == pieces
  {
    if |pieces| == 1 {
      ExplodePiece(pieces[0], [], d);
    } else {
      ExplodeImplode(pieces[1..], d);
      ExplodePiece(pieces[0], Implode(pieces[1..], d), d);
      assert pieces == [pieces[0]] + pieces[1..];
    }
  }
}
