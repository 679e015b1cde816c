/** `URLSearchParams` as the forum pages use it: an ordered list of
    name/value entries in which a name may repeat. */
module QueryParams {
  import opened Options

  type Pairs = seq<(string, string)>

  /** The entries named `k`, in order. */
  function Only(ps: Pairs, k: string): (r: Pairs)
    ensures forall i :: 0 <= i < |r| ==> r[i].0 == k
  {
    if |ps| == 0 then [] else (if ps[0].0 == k then [ps[0]] else []) + Only(ps[1..], k)
  }

  lemma OnlyCons(p: (string, string), ps: Pairs, k: string)
    ensures Only([p] + ps, k) == (if p.0 == k then [p] else []) + Only(ps, k)
  {
    assert ([p] + ps)[1..] == ps;
  }

  lemma {:induction false} OnlyAppend(a: Pairs, b: Pairs, k: string)
    ensures Only(a + b, k) == Only(a, k) + Only(b, k)
    decreases |a|
  {
    if |a| == 0 {
      assert a + b == b;
    } else {
      assert a + b == [a[0]] + (a[1..] + b);
      OnlyCons(a[0], a[1..] + b, k);
      OnlyAppend(a[1..], b, k);
    }
  }

  /** Some entry is named `k`. */
  predicate Has(ps: Pairs, k: string) {
    exists i :: 0 <= i < |ps| && ps[i].0 == k
  }

  lemma {:induction false} HasIffOnly(ps: Pairs, k: string)
    ensures Has(ps, k) <==> Only(ps, k) != []
    decreases |ps|
  {
    if |ps| > 0 {
      HasIffOnly(ps[1..], k);
      if Has(ps, k) && ps[0].0 != k {
        var i :| 0 <= i < |ps| && ps[i].0 == k;
        assert ps[1..][i - 1].0 == k;
      }
      if Has(ps[1..], k) {
        var i :| 0 <= i < |ps[1..]| && ps[1..][i].0 == k;
        assert ps[i + 1].0 == k;
      }
    }
  }

  /** `searchParams.get(k)`: the value of the first entry named `k`. */
  function Get(ps: Pairs, k: string): (r: Option<string>)
    ensures r.Some? <==> Only(ps, k) != []
    ensures r.Some? ==> Only(ps, k)[0] == (k, r.value)
  {
    if |ps| == 0 then None
    else if ps[0].0 == k then Some(ps[0].1)
    else Get(ps[1..], k)
  }

  /** `searchParams.delete(k)`: every entry named `k` goes, the others keep
      their order. */
  function Delete(ps: Pairs, k: string): (r: Pairs)
    ensures Only(r, k) == []
    ensures forall k' :: k' != k ==> Only(r, k') == Only(ps, k')
  {
    if |ps| == 0 then []
    else if ps[0].0 == k then Delete(ps[1..], k)
    else
      var r := [ps[0]] + Delete(ps[1..], k);
      OnlyCons(ps[0], Delete(ps[1..], k), k);
      forall k' | k' != k ensures Only(r, k') == Only(ps, k') {
        OnlyCons(ps[0], Delete(ps[1..], k), k');
      }
      r
  }

  /** `searchParams.set(k, v)`: the first entry named `k` takes the value `v`
      and the later ones go; with no such entry, `(k, v)` is appended. */
  function Set(ps: Pairs, k: string, v: string): (r: Pairs)
    ensures Only(r, k) == [(k, v)]
    ensures forall k' :: k' != k ==> Only(r, k') == Only(ps, k')
  {
    if |ps| == 0 then
      [(k, v)]
    else if ps[0].0 == k then
      var r := [(k, v)] + Delete(ps[1..], k);
      OnlyCons((k, v), Delete(ps[1..], k), k);
      forall k' | k' != k ensures Only(r, k') == Only(ps, k') {
        OnlyCons((k, v), Delete(ps[1..], k), k');
      }
      r
    else
      var r := [ps[0]] + Set(ps[1..], k, v);
      OnlyCons(ps[0], Set(ps[1..], k, v), k);
      forall k' | k' != k ensures Only(r, k') == Only(ps, k') {
        OnlyCons(ps[0], Set(ps[1..], k, v), k');
      }
      r
  }

  /** Where `set` puts the entry: the entries before the first one named `k`
      stay where they were, that first entry takes the new value in place,
      and with no entry named `k` the new one goes at the end. */
  lemma {:induction false} SetKeepsPlace(ps: Pairs, k: string, v: string, n: nat)
    requires n <= |ps| && Only(ps[..n], k) == []
    ensures var r := Set(ps, k, v);
      && n <= |r| && r[..n] == ps[..n]
      && (n < |ps| && ps[n].0 == k ==> n < |r| && r[n] == (k, v))
      && (n == |ps| ==> r == ps + [(k, v)])
    decreases n
  {
    if n > 0 {
      assert ps[..n] == [ps[0]] + ps[..n][1..];
      OnlyCons(ps[0], ps[..n][1..], k);
      assert ps[1..][..n - 1] == ps[..n][1..];
      SetKeepsPlace(ps[1..], k, v, n - 1);
      assert Set(ps, k, v) == [ps[0]] + Set(ps[1..], k, v);
      assert ps == [ps[0]] + ps[1..];
    }
  }

  /** Deleting a name that is not there changes nothing. */
  lemma {:induction false} DeleteAbsent(ps: Pairs, k: string)
    requires Only(ps, k) == []
    ensures Delete(ps, k) == ps
    decreases |ps|
  {
    if |ps| > 0 {
      DeleteAbsent(ps[1..], k);
    }
  }

  /** Setting a name to the value its single entry already has changes nothing. */
  lemma {:induction false} SetPresent(ps: Pairs, k: string, v: string)
    requires Only(ps, k) == [(k, v)]
    ensures Set(ps, k, v) == ps
    decreases |ps|
  {
    if |ps| > 0 {
      if ps[0].0 == k {
        assert Only(ps[1..], k) == [];
        DeleteAbsent(ps[1..], k);
        assert [(k, v)] + ps[1..] == ps;
      } else {
        SetPresent(ps[1..], k, v);
      }
    }
  }

  /** The entries an update list leaves behind for its own name: the entry
      itself when its value is truthy, nothing otherwise. */
  function Wanted(u: (string, string)): Pairs {
    if u.1 != "" then [u] else []
  }

  /** One step of `updateQueryParams`: a truthy value is set, a falsy one deleted. */
  function ApplyOne(ps: Pairs, u: (string, string)): (r: Pairs)
    ensures Only(r, u.0) == Wanted(u)
    ensures forall k' :: k' != u.0 ==> Only(r, k') == Only(ps, k')
  {
    if u.1 != "" then Set(ps, u.0, u.1) else Delete(ps, u.0)
  }

  /** The names of an object: no two entries share one. */
  predicate DistinctNames(us: Pairs) {
    forall i, j :: 0 <= i < j < |us| ==> us[i].0 != us[j].0
  }

  /** `updateQueryParams(params)`: every named parameter ends up set to its
      value when that value is truthy and absent when it is falsy; entries of
      every other name are left exactly as they were. */
  function Update(ps: Pairs, us: Pairs): (r: Pairs)
    requires DistinctNames(us)
    ensures forall i :: 0 <= i < |us| ==> Only(r, us[i].0) == Wanted(us[i])
    ensures forall k :: !Has(us, k) ==> Only(r, k) == Only(ps, k)
    decreases |us|
  {
    if |us| == 0 then ps
    else
      var r := Update(ApplyOne(ps, us[0]), us[1..]);
      assert !Has(us[1..], us[0].0);
      forall i | 0 <= i < |us| ensures Only(r, us[i].0) == Wanted(us[i]) {
        if i > 0 {
          assert us[1..][i - 1] == us[i];
        }
      }
      forall k | !Has(us, k) ensures Only(r, k) == Only(ps, k) {
        assert k != us[0].0;
      }
      r
  }

  /** An update list that already holds leaves the entries untouched. */
  lemma {:induction false} UpdateHolding(ps: Pairs, us: Pairs)
    requires DistinctNames(us)
    requires forall i :: 0 <= i < |us| ==> Only(ps, us[i].0) == Wanted(us[i])
    ensures Update(ps, us) == ps
    decreases |us|
  {
    if |us| > 0 {
      if us[0].1 != "" {
        SetPresent(ps, us[0].0, us[0].1);
      } else {
        DeleteAbsent(ps, us[0].0);
      }
      forall i | 0 <= i < |us[1..]| ensures Only(ps, us[1..][i].0) == Wanted(us[1..][i]) {
        assert us[1..][i] == us[i + 1];
      }
      UpdateHolding(ps, us[1..]);
    }
  }

  /** Applying the same update twice is the same as applying it once. */
  lemma UpdateIdempotent(ps: Pairs, us: Pairs)
    requires DistinctNames(us)
    ensures Update(Update(ps, us), us) == Update(ps, us)
  {
    UpdateHolding(Update(ps, us), us);
  }

  // ---------------------------------------------------------------------
  // Serialisation: `searchParams.toString()` and reading it back.

  /** Characters application/x-www-form-urlencoded leaves as they are. */
  predicate Unreserved(c: char) {
    ('a' <= c <= 'z') || ('A' <= c <= 'Z') || ('0' <= c <= '9') || c in {'*', '-', '.', '_'}
  }

  predicate IsUnreserved(s: string) {
    forall i :: 0 <= i < |s| ==> Unreserved(s[i])
  }

  /** Every name and value needs no escaping, so serialisation copies them. */
  predicate Plain(ps: Pairs) {
    forall i :: 0 <= i < |ps| ==> IsUnreserved(ps[i].0) && IsUnreserved(ps[i].1)
  }

  function Piece(p: (string, string)): string {
    p.0 + "=" + p.1
  }

  /** `searchParams.toString()` for plain entries: `name=value` pieces joined by '&'. */
  function Serialize(ps: Pairs): string {
    if |ps| == 0 then ""
    else if |ps| == 1 then Piece(ps[0])
    else Piece(ps[0]) + "&" + Serialize(ps[1..])
  }

  /** The first index of `c` in `s`, or `|s|` when there is none. */
  function IndexOf(s: string, c: char): (i: nat)
    ensures i <= |s|
    ensures i < |s| ==> s[i] == c
    ensures forall j :: 0 <= j < i ==> s[j] != c
  {
    if |s| == 0 then 0
    else if s[0] == c then 0
    else 1 + IndexOf(s[1..], c)
  }

  /** A piece `name=value` split at its first '='; a piece without '=' is a
      name with the empty value. */
  function ParsePiece(piece: string): (string, string) {
    var i := IndexOf(piece, '=');
    if i < |piece| then (piece[..i], piece[i + 1..]) else (piece, "")
  }

  /** Parsing a query string the way `new URLSearchParams(s)` does (without
      percent-decoding): split at '&', skip empty pieces, split each piece
      at its first '='. */
  function Parse(s: string): Pairs
    decreases |s|
  {
    if |s| == 0 then []
    else
      var i := IndexOf(s, '&');
      var piece := s[..i];
      var rest := if i < |s| then Parse(s[i + 1..]) else [];
      (if piece == "" then [] else [ParsePiece(piece)]) + rest
  }

  lemma PieceRoundTrip(p: (string, string))
    requires IsUnreserved(p.0) && IsUnreserved(p.1)
    ensures ParsePiece(Piece(p)) == p
    ensures IndexOf(Piece(p), '&') == |Piece(p)|
    ensures Piece(p) != ""
  {
    var s := Piece(p);
    var i := IndexOf(s, '=');
    assert s[|p.0|] == '=';
    assert s[..i] == p.0 && s[i + 1..] == p.1;
  }

  /** The query string the server receives reads back as exactly the entries
      the page built. */
  lemma {:induction false} ParseSerialize(ps: Pairs)
    requires Plain(ps)
    ensures Parse(Serialize(ps)) == ps
    decreases |ps|
  {
    if |ps| == 1 {
      PieceRoundTrip(ps[0]);
      var s := Serialize(ps);
      assert s[..|s|] == s;
      assert ps == [ps[0]];
    } else if |ps| > 1 {
      PieceRoundTrip(ps[0]);
      var piece := Piece(ps[0]);
      var s := Serialize(ps);
      var rest := Serialize(ps[1..]);
      assert s == piece + "&" + rest;
      var i := IndexOf(s, '&');
      assert s[|piece|] == '&';
      assert i == |piece|;
      assert s[..i] == piece;
      assert s[i + 1..] == rest;
      assert Plain(ps[1..]) by {
        forall j | 0 <= j < |ps[1..]| ensures IsUnreserved(ps[1..][j].0) && IsUnreserved(ps[1..][j].1) {
          assert ps[1..][j] == ps[j + 1];
        }
      }
      ParseSerialize(ps[1..]);
      assert ps == [ps[0]] + ps[1..];
    }
  }
}
