/** Characters, and joining fields with ':'. */
module Text {

  /** std::isspace in the "C" locale. */
  predicate IsSpace(c: char) {
    c == ' ' || c == '\t' || c == '\n' || c == '\r' || c == 11 as char || c == 12 as char
  }

  predicate ColonFree(s: string) {
    ':' !in s
  }

  /** When neither head contains ':', a joined string splits in one way only. */
  lemma JoinSplits(a: string, s: string, b: string, t: string)
    requires ColonFree(a) && ColonFree(b)
    requires a + ":" + s == b + ":" + t
    ensures a == b && s == t
  {
    var u := a + ":" + s;
    assert u[|a|] == ':' && u[|b|] == ':';
    assert forall i :: 0 <= i < |a| ==> u[i] == a[i];
    assert forall i :: 0 <= i < |b| ==> u[i] == b[i];
    assert |a| == |b|;
    assert a == u[..|a|] && b == u[..|b|];
    assert s == u[|a| + 1..] && t == u[|b| + 1..];
  }

  function CountColons(s: string): (count: nat)
    ensures count == 0 <==> ColonFree(s)
  {
    if s == [] then 0 else (if s[0] == ':' then 1 else 0) + CountColons(s[1..])
  }

  lemma {:induction false} CountColonsJoined(s: string, t: string)
    ensures CountColons(s + ":" + t) == CountColons(s) + 1 + CountColons(t)
  {
    var u := s + ":" + t;
    if s == [] {
      assert u == ":" + t && u[1..] == t;
    } else {
      CountColonsJoined(s[1..], t);
      assert u[1..] == s[1..] + ":" + t;
    }
  }

  /** A string with ':' is a joined string. */
  lemma SplitAtColon(s: string) returns (x: string, y: string)
    requires !ColonFree(s)
    ensures s == x + ":" + y
  {
    var k :| 0 <= k < |s| && s[k] == ':';
    x, y := s[..k], s[k + 1..];
  }

  /** The texts between the colons, first to last. */
  function Fields(s: string): (fields: seq<string>)
    ensures fields != []
    ensures ColonFree(s) ==> fields == [s]
  {
    if s == [] then [[]]
    else
      var rest := Fields(s[1..]);
      assert [s[0]] + s[1..] == s;
      if s[0] == ':' then [[]] + rest else [[s[0]] + rest[0]] + rest[1..]
  }

  lemma {:induction false} FieldsJoined(s: string, t: string)
    requires ColonFree(s)
    ensures Fields(s + ":" + t) == [s] + Fields(t)
  {
    var u := s + ":" + t;
    if s == [] {
      assert u == ":" + t && u[1..] == t;
    } else {
      FieldsJoined(s[1..], t);
      assert u[1..] == s[1..] + ":" + t;
      assert u[0] == s[0] != ':';
      assert ([s[1..]] + Fields(t))[1..] == Fields(t);
      assert s == [s[0]] + s[1..];
    }
  }

  lemma TwoFields(f: string, g: string, rest: string)
    requires ColonFree(f) && ColonFree(g)
    ensures Fields(f + ":" + (g + ":" + rest)) == [f, g] + Fields(rest)
  {
    FieldsJoined(g, rest);
    FieldsJoined(f, g + ":" + rest);
  }

  lemma SixFields(f: string, g: string, u: string, v: string, x: string, t: string)
    requires ColonFree(f) && ColonFree(g) && ColonFree(u) && ColonFree(v) && ColonFree(x) && ColonFree(t)
    ensures Fields(f + ":" + (g + ":" + (u + ":" + (v + ":" + (x + ":" + t))))) == [f, g, u, v, x, t]
  {
    var rest := x + ":" + t;
    assert Fields(rest) == [x, t] by {
      FieldsJoined(x, t);
    }
    FourFields(f, g, u, v, rest);
  }

  lemma FourFields(f: string, g: string, u: string, v: string, rest: string)
    requires ColonFree(f) && ColonFree(g) && ColonFree(u) && ColonFree(v)
    ensures Fields(f + ":" + (g + ":" + (u + ":" + (v + ":" + rest)))) == [f, g, u, v] + Fields(rest)
  {
    TwoFields(u, v, rest);
    TwoFields(f, g, u + ":" + (v + ":" + rest));
  }
}
