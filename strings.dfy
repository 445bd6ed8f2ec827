/**
 * TYPO3's GeneralUtility::trimExplode(',', $s) with its defaults: PHP's
 * explode(',', $s), which keeps empty pieces, followed by PHP's trim() of
 * every piece.
 */
module Strings {

  /** The characters trim() strips by default: space, tab, line feed, carriage return, NUL and vertical tab. */
  predicate IsTrimmed(c: char)
  {
    c == ' ' || c == '\t' || c == '\n' || c == '\r' || c == '\0' || c == '\U{B}'
  }

  function TrimLeft(s: string): (r: string)
    ensures |r| <= |s| && r == s[|s| - |r|..]
    ensures forall k :: 0 <= k < |s| - |r| ==> IsTrimmed(s[k])
    ensures r != [] ==> !IsTrimmed(r[0])
  {
    if s != [] && IsTrimmed(s[0]) then TrimLeft(s[1..]) else s
  }

  function TrimRight(s: string): (r: string)
    ensures |r| <= |s| && r == s[..|r|]
    ensures forall k :: |r| <= k < |s| ==> IsTrimmed(s[k])
    ensures r != [] ==> !IsTrimmed(r[|r| - 1])
  {
    if s != [] && IsTrimmed(s[|s| - 1]) then TrimRight(s[..|s| - 1]) else s
  }

  /**
   * PHP's trim(): the part of `s` that remains once the trimmed characters are
   * removed from both ends; it neither starts nor ends with one.
   */
  function Trim(s: string): (r: string)
    ensures var i := |s| - |TrimLeft(s)|;
            && i + |r| <= |s| && r == s[i..i + |r|]
            && (forall k :: 0 <= k < i ==> IsTrimmed(s[k]))
            && (forall k :: i + |r| <= k < |s| ==> IsTrimmed(s[k]))
    ensures r != [] ==> !IsTrimmed(r[0]) && !IsTrimmed(r[|r| - 1])
  {
    TrimRight(TrimLeft(s))
  }

  /** A string that neither starts nor ends with a trimmed character is its own trim. */
  lemma TrimUnpadded(t: string)
    requires t != [] ==> !IsTrimmed(t[0]) && !IsTrimmed(t[|t| - 1])
    ensures Trim(t) == t
  {
  }

  /** A leading blank is trimmed away. */
  lemma TrimBlankPrefix(c: char, t: string)
    requires IsTrimmed(c)
    ensures Trim([c] + t) == Trim(t)
  {
    assert ([c] + t)[1..] == t;
  }

  /** Trimming twice is trimming once. */
  lemma TrimIdempotent(s: string)
    ensures Trim(Trim(s)) == Trim(s)
  {
    var r := Trim(s);
    assert TrimLeft(r) == r;
    assert TrimRight(r) == r;
  }

  /** The position of the first comma in `s` at or after `p`, or |s| when there is none. */
  function CommaFrom(s: string, p: nat): (i: nat)
    requires p <= |s|
    ensures p <= i <= |s|
    ensures i < |s| ==> s[i] == ','
    decreases |s| - p
  {
    if p == |s| || s[p] == ',' then p else CommaFrom(s, p + 1)
  }

  /** No comma lies between `p` and CommaFrom(s, p): it is the first one. */
  lemma {:induction false} CommaFromFirst(s: string, p: nat, k: nat)
    requires p <= |s| && p <= k < CommaFrom(s, p)
    ensures s[k] != ','
    decreases k - p
  {
    if p < k {
      CommaFromFirst(s, p + 1, k);
    }
  }

  /** A comma-free stretch from `p` to a comma or the end makes that comma or end CommaFrom(s, p). */
  lemma {:induction false} CommaFromAt(s: string, p: nat, q: nat)
    requires p <= q <= |s|
    requires forall k :: p <= k < q ==> s[k] != ','
    requires q == |s| || s[q] == ','
    ensures CommaFrom(s, p) == q
    decreases q - p
  {
    if p < q {
      CommaFromAt(s, p + 1, q);
    }
  }

  /** The comma-separated pieces of `s` from position `p` on, empty ones included. */
  function ExplodeFrom(s: string, p: nat): (r: seq<string>)
    requires p <= |s|
    ensures |r| >= 1
    decreases |s| - p
  {
    var i := CommaFrom(s, p);
    if i == |s| then [s[p..]] else [s[p..i]] + ExplodeFrom(s, i + 1)
  }

  /** PHP's explode(',', s): the comma-free pieces between commas, empty ones included. */
  function Explode(s: string): (r: seq<string>)
    ensures |r| >= 1
  {
    ExplodeFrom(s, 0)
  }

  /** PHP's implode(',', pieces). */
  function Implode(pieces: seq<string>): string
    requires |pieces| >= 1
  {
    if |pieces| == 1 then pieces[0] else pieces[0] + "," + Implode(pieces[1..])
  }

  lemma {:induction false} ImplodeExplodeFrom(s: string, p: nat)
    requires p <= |s|
    ensures Implode(ExplodeFrom(s, p)) == s[p..]
    decreases |s| - p
  {
    var i := CommaFrom(s, p);
    if i < |s| {
      calc {
        Implode(ExplodeFrom(s, p));
      == { ExplodeFromStep(s, p); }
        Implode([s[p..i]] + ExplodeFrom(s, i + 1));
      == { ImplodeCons(s[p..i], ExplodeFrom(s, i + 1)); }
        s[p..i] + "," + Implode(ExplodeFrom(s, i + 1));
      == { ImplodeExplodeFrom(s, i + 1); }
        s[p..i] + "," + s[i + 1..];
      == { SliceAtComma(s, p, i); }
        s[p..];
      }
    }
  }

  /** Past a comma, the pieces from `p` are the one before the comma followed by those after it. */
  lemma ExplodeFromStep(s: string, p: nat)
    requires p <= |s| && CommaFrom(s, p) < |s|
    ensures ExplodeFrom(s, p) == [s[p..CommaFrom(s, p)]] + ExplodeFrom(s, CommaFrom(s, p) + 1)
  {
  }

  /** Joining a first piece with the rest puts one comma between them. */
  lemma ImplodeCons(first: string, rest: seq<string>)
    requires |rest| >= 1
    ensures Implode([first] + rest) == first + "," + Implode(rest)
  {
    assert ([first] + rest)[1..] == rest;
  }

  /** A comma at `i` splits the text from `p` around it. */
  lemma SliceAtComma(s: string, p: nat, i: nat)
    requires p <= i < |s| && s[i] == ','
    ensures s[p..] == s[p..i] + "," + s[i + 1..]
  {
    assert s[p..] == s[p..i] + s[i..];
    assert s[i..] == [s[i]] + s[i + 1..];
  }

  /** Exploding loses nothing: joining the pieces with commas gives back the string. */
  lemma ImplodeExplode(s: string)
    ensures Implode(Explode(s)) == s
  {
    ImplodeExplodeFrom(s, 0);
    assert s[0..] == s;
  }

  /**
   * When the text from `p` on is a comma-free `head` followed by `tail`, the
   * slice at `p` is `head`, `tail` follows it, and no comma lies in between.
   */
  lemma SplitAt(s: string, p: nat, head: string, tail: string)
    requires p <= |s| && s[p..] == head + tail && ',' !in head
    ensures p + |head| <= |s|
    ensures s[p..p + |head|] == head
    ensures s[p + |head|..] == tail
    ensures forall k :: p <= k < p + |head| ==> s[k] != ','
  {
    assert s[p..][..|head|] == head;
    assert s[p..][|head|..] == tail;
    forall k | p <= k < p + |head|
      ensures s[k] != ','
    {
      assert s[k] == head[k - p];
    }
  }

  /** A comma-free text from `p` on is a single piece. */
  lemma ExplodeLastPiece(s: string, p: nat, last: string)
    requires p <= |s| && s[p..] == last && ',' !in last
    ensures ExplodeFrom(s, p) == [last]
  {
    SplitAt(s, p, last, "");
    CommaFromAt(s, p, |s|);
  }

  /** A text that starts with a comma at `q` continues with what follows the comma. */
  lemma CommaThenRest(s: string, q: nat, rest: string)
    requires q <= |s| && s[q..] == "," + rest
    ensures q < |s| && s[q] == ',' && s[q + 1..] == rest
  {
    assert s[q..][0] == s[q];
    assert s[q + 1..] == s[q..][1..];
  }

  /** A comma-free `first` and a comma from `p` on: `first` lies at `p`, the comma right after it, `rest` past the comma. */
  lemma HeadCommaRest(s: string, p: nat, first: string, rest: string)
    requires p <= |s| && s[p..] == first + "," + rest && ',' !in first
    ensures p + |first| < |s| && s[p..p + |first|] == first
    ensures forall k :: p <= k < p + |first| ==> s[k] != ','
    ensures s[p + |first|] == ',' && s[p + |first| + 1..] == rest
  {
    assert first + "," + rest == first + ("," + rest);
    SplitAt(s, p, first, "," + rest);
    CommaThenRest(s, p + |first|, rest);
  }

  /** A comma-free stretch from `p` up to a comma at `q` is the next piece. */
  lemma ExplodeAtComma(s: string, p: nat, q: nat)
    requires p <= q < |s| && s[q] == ','
    requires forall k :: p <= k < q ==> s[k] != ','
    ensures ExplodeFrom(s, p) == [s[p..q]] + ExplodeFrom(s, q + 1)
  {
    CommaFromAt(s, p, q);
    ExplodeFromStep(s, p);
  }

  /** A comma-free `first` and a comma from `p` on make `first` the next piece; the pieces after it start past the comma. */
  lemma ExplodeNextPiece(s: string, p: nat, first: string, rest: string)
    requires p <= |s| && s[p..] == first + "," + rest && ',' !in first
    ensures p + |first| + 1 <= |s| && s[p + |first| + 1..] == rest
    ensures ExplodeFrom(s, p) == [first] + ExplodeFrom(s, p + |first| + 1)
  {
    HeadCommaRest(s, p, first, rest);
    ExplodeAtComma(s, p, p + |first|);
  }

  /** Two or more pieces: the first, one comma, then the comma-free rest joined. */
  lemma ImplodeSplit(pieces: seq<string>)
    requires |pieces| >= 2
    requires forall k :: 0 <= k < |pieces| ==> ',' !in pieces[k]
    ensures Implode(pieces) == pieces[0] + "," + Implode(pieces[1..])
    ensures pieces == [pieces[0]] + pieces[1..]
    ensures forall k :: 0 <= k < |pieces[1..]| ==> ',' !in pieces[1..][k]
  {
    forall k | 0 <= k < |pieces[1..]|
      ensures ',' !in pieces[1..][k]
    {
      assert pieces[1..][k] == pieces[k + 1];
    }
  }

  lemma {:induction false} ExplodeImplodeFrom(s: string, p: nat, pieces: seq<string>)
    requires p <= |s| && |pieces| >= 1
    requires forall k :: 0 <= k < |pieces| ==> ',' !in pieces[k]
    requires s[p..] == Implode(pieces)
    ensures ExplodeFrom(s, p) == pieces
    decreases |pieces|
  {
    if |pieces| == 1 {
      ExplodeLastPiece(s, p, pieces[0]);
    } else {
      var first, rest := pieces[0], pieces[1..];
      ImplodeSplit(pieces);
      calc {
        ExplodeFrom(s, p);
      == { ExplodeNextPiece(s, p, first, Implode(rest)); }
        [first] + ExplodeFrom(s, p + |first| + 1);
      == { ExplodeImplodeFrom(s, p + |first| + 1, rest); }
        [first] + rest;
      }
    }
  }

  /** Comma-free pieces joined with commas explode back into the same pieces. */
  lemma ExplodeImplode(pieces: seq<string>)
    requires |pieces| >= 1
    requires forall k :: 0 <= k < |pieces| ==> ',' !in pieces[k]
    ensures Explode(Implode(pieces)) == pieces
  {
    var s := Implode(pieces);
    assert s[0..] == s;
    ExplodeImplodeFrom(s, 0, pieces);
  }

  /** Two comma-free pieces joined by one comma explode back into those two. */
  lemma ExplodeTwo(first: string, second: string)
    requires ',' !in first && ',' !in second
    ensures Explode(first + "," + second) == [first, second]
  {
    var pieces := [first, second];
    assert ',' !in pieces[0] && ',' !in pieces[1];
    ExplodeImplode(pieces);
    assert Implode(pieces) == first + "," + second;
  }

  /** The whole comma-separated list, each entry trimmed: trimExplode(',', s). */
  function TrimExplode(s: string): seq<string>
  {
    var pieces := Explode(s);
    seq(|pieces|, k requires 0 <= k < |pieces| => Trim(pieces[k]))
  }

  /** s[a..b] is a field of s: it is bounded by commas or by the ends of s and holds no comma. */
  predicate IsField(s: string, a: int, b: int)
  {
    && 0 <= a <= b <= |s|
    && (a == 0 || s[a - 1] == ',')
    && (b == |s| || s[b] == ',')
    && forall k :: a <= k < b ==> s[k] != ','
  }

  /** The first piece from `p` on is the field that starts at `p`. */
  lemma FirstPieceIsField(s: string, p: nat)
    requires p <= |s| && (p == 0 || s[p - 1] == ',')
    ensures IsField(s, p, CommaFrom(s, p))
    ensures ExplodeFrom(s, p)[0] == s[p..CommaFrom(s, p)]
  {
    forall k | p <= k < CommaFrom(s, p) {
      CommaFromFirst(s, p, k);
    }
    assert s[p..] == s[p..|s|];
  }

  /** Past the first comma from `p`, piece `k` from `p` is piece `k - 1` from just after that comma. */
  lemma ExplodeFromLater(s: string, p: nat, k: nat)
    requires p <= |s| && CommaFrom(s, p) < |s| && 1 <= k
    ensures |ExplodeFrom(s, p)| == 1 + |ExplodeFrom(s, CommaFrom(s, p) + 1)|
    ensures k < |ExplodeFrom(s, p)| ==> ExplodeFrom(s, p)[k] == ExplodeFrom(s, CommaFrom(s, p) + 1)[k - 1]
  {
    ExplodeFromStep(s, p);
  }

  /** Every piece from `p` on is a field of the string that starts at or after `p`. */
  lemma {:induction false} PieceIsFieldFrom(s: string, p: nat, k: nat) returns (a: nat, b: nat)
    requires p <= |s| && (p == 0 || s[p - 1] == ',')
    requires k < |ExplodeFrom(s, p)|
    ensures p <= a && IsField(s, a, b) && s[a..b] == ExplodeFrom(s, p)[k]
    decreases |s| - p
  {
    FirstPieceIsField(s, p);
    var i := CommaFrom(s, p);
    if k == 0 {
      a, b := p, i;
    } else {
      ExplodeFromLater(s, p, k);
      a, b := PieceIsFieldFrom(s, i + 1, k - 1);
    }
  }

  /** Every exploded piece is a field of the string. */
  lemma PieceIsField(s: string, k: nat) returns (a: nat, b: nat)
    requires k < |Explode(s)|
    ensures IsField(s, a, b) && s[a..b] == Explode(s)[k]
  {
    a, b := PieceIsFieldFrom(s, 0, k);
  }

  /** A comma at a - 1 bounds the first comma from any p before it. */
  lemma {:induction false} CommaBefore(s: string, p: nat, a: nat)
    requires p < a <= |s| && s[a - 1] == ','
    ensures CommaFrom(s, p) < a
    decreases a - p
  {
    if s[p] != ',' {
      CommaBefore(s, p + 1, a);
    }
  }

  /** A field that starts at `a` is the first piece from `a` on. */
  lemma FieldIsFirstPiece(s: string, a: nat, b: nat)
    requires IsField(s, a, b)
    ensures ExplodeFrom(s, a)[0] == s[a..b]
  {
    FirstPieceIsField(s, a);
    CommaFromAt(s, a, b);
  }

  /** Every field that starts at or after `p` is a piece from `p` on. */
  lemma {:induction false} FieldIsPieceFrom(s: string, p: nat, a: nat, b: nat) returns (k: nat)
    requires p <= a && IsField(s, a, b) && (p == 0 || s[p - 1] == ',')
    ensures k < |ExplodeFrom(s, p)| && ExplodeFrom(s, p)[k] == s[a..b]
    decreases a - p
  {
    var i := CommaFrom(s, p);
    if p == a {
      FieldIsFirstPiece(s, a, b);
      k := 0;
    } else {
      CommaBefore(s, p, a);
      var k' := FieldIsPieceFrom(s, i + 1, a, b);
      k := k' + 1;
      ExplodeFromLater(s, p, k);
    }
  }

  /** Every field of the string is one of its exploded pieces. */
  lemma FieldIsPiece(s: string, a: nat, b: nat) returns (k: nat)
    requires IsField(s, a, b)
    ensures k < |Explode(s)| && Explode(s)[k] == s[a..b]
  {
    k := FieldIsPieceFrom(s, 0, a, b);
  }

  /**
   * A name is in trimExplode(',', s) exactly when trimming some field of s
   * yields it: the list entries are the comma-delimited fields, trimmed.
   */
  lemma ListedIffTrimmedField(s: string, name: string)
    ensures name in TrimExplode(s) <==> exists a, b :: IsField(s, a, b) && Trim(s[a..b]) == name
  {
    var pieces := Explode(s);
    if name in TrimExplode(s) {
      var k :| 0 <= k < |pieces| && TrimExplode(s)[k] == name;
      var a, b := PieceIsField(s, k);
      assert IsField(s, a, b) && Trim(s[a..b]) == name;
    }
    if exists a, b :: IsField(s, a, b) && Trim(s[a..b]) == name {
      var a, b :| IsField(s, a, b) && Trim(s[a..b]) == name;
      var k := FieldIsPiece(s, a, b);
      assert TrimExplode(s)[k] == name;
    }
  }
}
