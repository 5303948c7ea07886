/** Reading the query of a URL back: the text after the first '?' up to the first '#'
    (where the fragment starts), split on '&', then each parameter at its first '='. No
    percent-decoding. Used to state what the OAuth provider receives. */
module QueryStrings {
  import opened Records

  /** `s.split(sep)`: the pieces between the occurrences of `sep`. */
  function Split(s: string, sep: char): (parts: seq<string>)
    ensures |parts| >= 1
  {
    if s == [] then [""]
    else if s[0] == sep then [""] + Split(s[1..], sep)
    else
      var rest := Split(s[1..], sep);
      [[s[0]] + rest[0]] + rest[1..]
  }

  /** `sep.join(parts)`. */
  function Join(parts: seq<string>, sep: char): string
    requires |parts| >= 1
  {
    if |parts| == 1 then parts[0] else parts[0] + [sep] + Join(parts[1..], sep)
  }

  lemma JoinCons(p: string, rest: seq<string>, sep: char)
    requires |rest| >= 1
    ensures Join([p] + rest, sep) == p + [sep] + Join(rest, sep)
  {
    assert ([p] + rest)[1..] == rest;
  }

  /** The text after the first `sep`, or "" when there is none. */
  function After(s: string, sep: char): string {
    if s == [] then "" else if s[0] == sep then s[1..] else After(s[1..], sep)
  }

  /** The text before the first `sep`, or all of `s` when there is none. */
  function Before(s: string, sep: char): string {
    if s == [] || s[0] == sep then "" else [s[0]] + Before(s[1..], sep)
  }

  /** A `key=value` parameter split at its first '='. */
  function Param(part: string): (string, string) {
    if part == [] then ("", "")
    else if part[0] == '=' then ("", part[1..])
    else var (k, v) := Param(part[1..]); ([part[0]] + k, v)
  }

  function Params(parts: seq<string>): (r: seq<(string, string)>)
    ensures |r| == |parts|
  {
    if parts == [] then [] else [Param(parts[0])] + Params(parts[1..])
  }

  /** `key=value`. */
  function Piece(param: (string, string)): string {
    param.0 + "=" + param.1
  }

  function Pieces(params: seq<(string, string)>): (r: seq<string>)
    ensures |r| == |params|
    ensures forall i :: 0 <= i < |params| ==> r[i] == Piece(params[i])
  {
    if params == [] then [] else [Piece(params[0])] + Pieces(params[1..])
  }

  /** The query string of `params`, each written `key=value` and joined by '&', unencoded. */
  function Query(params: seq<(string, string)>): string
    requires |params| >= 1
  {
    Join(Pieces(params), '&')
  }

  /** The query parameters of `url`, in order; a '#' ends the query. */
  function QueryParams(url: string): seq<(string, string)> {
    Params(Split(Before(After(url, '?'), '#'), '&'))
  }

  /** The value of the first parameter named `key`. */
  function Lookup(params: seq<(string, string)>, key: string): Option<string> {
    if params == [] then None
    else if params[0].0 == key then Some(params[0].1)
    else Lookup(params[1..], key)
  }

  lemma {:induction false} SplitNoSep(p: string, sep: char)
    requires sep !in p
    ensures Split(p, sep) == [p]
  {
    if p != [] {
      SplitNoSep(p[1..], sep);
      assert [p[0]] + p[1..] == p;
    }
  }

  lemma {:induction false} SplitAfterPiece(p: string, sep: char, t: string)
    requires sep !in p
    ensures Split(p + [sep] + t, sep) == [p] + Split(t, sep)
  {
    if p == [] {
      assert p + [sep] + t == [sep] + t;
      assert ([sep] + t)[1..] == t;
    } else {
      assert (p + [sep] + t)[1..] == p[1..] + [sep] + t;
      SplitAfterPiece(p[1..], sep, t);
      assert [p[0]] + p[1..] == p;
    }
  }

  /** Splitting a join gives the pieces back when no piece holds the separator. */
  lemma {:induction false} SplitJoin(parts: seq<string>, sep: char)
    requires |parts| >= 1
    requires forall i :: 0 <= i < |parts| ==> sep !in parts[i]
    ensures Split(Join(parts, sep), sep) == parts
  {
    if |parts| == 1 {
      SplitNoSep(parts[0], sep);
    } else {
      SplitJoin(parts[1..], sep);
      SplitAfterPiece(parts[0], sep, Join(parts[1..], sep));
      assert [parts[0]] + parts[1..] == parts;
    }
  }

  lemma {:induction false} BeforeNoSep(s: string, sep: char)
    requires sep !in s
    ensures Before(s, sep) == s
  {
    if s != [] {
      BeforeNoSep(s[1..], sep);
      assert [s[0]] + s[1..] == s;
    }
  }

  /** A character that is neither the separator nor in any part is not in their join. */
  lemma {:induction false} NotInJoin(parts: seq<string>, sep: char, c: char)
    requires |parts| >= 1
    requires c != sep
    requires forall i :: 0 <= i < |parts| ==> c !in parts[i]
    ensures c !in Join(parts, sep)
  {
    if |parts| > 1 {
      NotInJoin(parts[1..], sep, c);
    }
  }

  lemma {:induction false} BeforeFirst(a: string, sep: char, b: string)
    requires sep !in a
    ensures Before(a + [sep] + b, sep) == a
  {
    if a == [] {
      assert a + [sep] + b == [sep] + b;
    } else {
      assert (a + [sep] + b)[1..] == a[1..] + [sep] + b;
      BeforeFirst(a[1..], sep, b);
      assert [a[0]] + a[1..] == a;
    }
  }

  lemma {:induction false} AfterFirst(a: string, sep: char, b: string)
    requires sep !in a
    ensures After(a + [sep] + b, sep) == b
  {
    if a == [] {
      assert a + [sep] + b == [sep] + b;
      assert ([sep] + b)[1..] == b;
    } else {
      assert (a + [sep] + b)[1..] == a[1..] + [sep] + b;
      AfterFirst(a[1..], sep, b);
    }
  }

  /** A parameter whose name has no '=' reads back as that name and the whole value. */
  lemma {:induction false} ParamOf(k: string, v: string)
    requires '=' !in k
    ensures Param(k + "=" + v) == (k, v)
  {
    if k == [] {
      assert k + "=" + v == ['='] + v;
      assert (['='] + v)[1..] == v;
    } else {
      assert (k + "=" + v)[1..] == k[1..] + "=" + v;
      ParamOf(k[1..], v);
      assert [k[0]] + k[1..] == k;
    }
  }

  lemma {:induction false} ParamsOfPieces(params: seq<(string, string)>)
    requires forall i :: 0 <= i < |params| ==> '=' !in params[i].0
    ensures Params(Pieces(params)) == params
  {
    if params != [] {
      ParamsOfPieces(params[1..]);
      ParamOf(params[0].0, params[0].1);
      assert Pieces(params)[1..] == Pieces(params[1..]);
    }
  }

  /** A URL built as `base?query` reads back as the parameters it was built from, when the
      base has no '?', no name has '=' and no name or value has '&' or '#'. */
  lemma QueryReadBack(base: string, params: seq<(string, string)>)
    requires '?' !in base
    requires |params| >= 1
    requires forall i :: 0 <= i < |params| ==> '=' !in params[i].0 && '&' !in params[i].0 && '&' !in params[i].1
    requires forall i :: 0 <= i < |params| ==> '#' !in params[i].0 && '#' !in params[i].1
    ensures QueryParams(base + "?" + Query(params)) == params
  {
    var pieces := Pieces(params);
    AfterFirst(base, '?', Query(params));
    forall i | 0 <= i < |pieces| ensures '&' !in pieces[i] && '#' !in pieces[i] {
      assert pieces[i] == params[i].0 + "=" + params[i].1;
    }
    NotInJoin(pieces, '&', '#');
    BeforeNoSep(Query(params), '#');
    SplitJoin(pieces, '&');
    ParamsOfPieces(params);
  }

  /** Whatever follows a '#' after the query is the fragment: the parameters read back are
      still exactly those of the query. */
  lemma QueryReadBackBeforeFragment(base: string, params: seq<(string, string)>, fragment: string)
    requires '?' !in base
    requires |params| >= 1
    requires forall i :: 0 <= i < |params| ==> '=' !in params[i].0 && '&' !in params[i].0 && '&' !in params[i].1
    requires forall i :: 0 <= i < |params| ==> '#' !in params[i].0 && '#' !in params[i].1
    ensures QueryParams(base + "?" + Query(params) + "#" + fragment) == params
  {
    var pieces := Pieces(params);
    assert base + "?" + Query(params) + "#" + fragment == base + ['?'] + (Query(params) + ['#'] + fragment);
    AfterFirst(base, '?', Query(params) + ['#'] + fragment);
    forall i | 0 <= i < |pieces| ensures '&' !in pieces[i] && '#' !in pieces[i] {
      assert pieces[i] == params[i].0 + "=" + params[i].1;
    }
    NotInJoin(pieces, '&', '#');
    BeforeFirst(Query(params), '#', fragment);
    SplitJoin(pieces, '&');
    ParamsOfPieces(params);
  }

  /** The query of four parameters, written out. */
  lemma QueryOfFour(q0: (string, string), q1: (string, string), q2: (string, string), q3: (string, string))
    ensures Query([q0, q1, q2, q3]) == Piece(q0) + "&" + (Piece(q1) + "&" + (Piece(q2) + "&" + Piece(q3)))
  {
    var p0, p1, p2, p3 := Piece(q0), Piece(q1), Piece(q2), Piece(q3);
    assert Pieces([q0, q1, q2, q3]) == [p0] + ([p1] + ([p2] + [p3]));
    JoinCons(p2, [p3], '&');
    JoinCons(p1, [p2] + [p3], '&');
    JoinCons(p0, [p1] + ([p2] + [p3]), '&');
  }

  /** The query of five parameters, written out. */
  lemma QueryOfFive(q0: (string, string), q1: (string, string), q2: (string, string), q3: (string, string), q4: (string, string))
    ensures Query([q0, q1, q2, q3, q4]) ==
            Piece(q0) + "&" + (Piece(q1) + "&" + (Piece(q2) + "&" + (Piece(q3) + "&" + Piece(q4))))
  {
    var p0, p1, p2, p3, p4 := Piece(q0), Piece(q1), Piece(q2), Piece(q3), Piece(q4);
    assert Pieces([q0, q1, q2, q3, q4]) == [p0] + ([p1] + ([p2] + ([p3] + [p4])));
    JoinCons(p3, [p4], '&');
    JoinCons(p2, [p3] + [p4], '&');
    JoinCons(p1, [p2] + ([p3] + [p4]), '&');
    JoinCons(p0, [p1] + ([p2] + ([p3] + [p4])), '&');
  }
}
