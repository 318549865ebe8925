/** A session worked end to end: two reports, a search, an update and a deletion. */
module Scenario {
  import opened Reports
  import opened Text
  import opened Store

  /** "Ana" in room "101" is found by the search "ana". */
  lemma AnaMatches(x: Report)
    requires x.fields.guestName == "Ana"
    ensures MatchesSearch("ana", x)
  {
    var l := Lower(x.fields.guestName);
    assert l == "ana" by {
      assert l[0] == LowerChar('A') == 'a';
    }
    assert Lower("ana") == "ana" by {
      LowerIdempotent("ana");
      assert Lower("ana")[0] == 'a' && Lower("ana")[1] == 'n' && Lower("ana")[2] == 'a';
    }
    assert IsPrefix("ana", l);
  }

  /** A string with no upper-case ASCII letter lower-cases to itself. */
  lemma LowerKeepsLowercase(s: string)
    requires forall i :: 0 <= i < |s| ==> !('A' <= s[i] <= 'Z')
    ensures Lower(s) == s
  {
  }

  /** A term that is neither a prefix of `t` nor inside its tail is not inside `t`. */
  lemma NotInfixStep(p: string, t: string)
    requires |t| > 0 && !IsPrefix(p, t) && !IsInfix(p, t[1..])
    ensures !IsInfix(p, t)
  {
  }

  lemma NotPrefixAtFirst(p: string, t: string)
    requires |p| > 0 && |t| > 0 && p[0] != t[0]
    ensures !IsPrefix(p, t)
  {
    if |p| <= |t| {
      assert t[..|p|][0] == t[0];
    }
  }

  lemma AnaNotIn(t: string)
    requires t == "beto" || t == "202"
    ensures !IsInfix("ana", t)
  {
    var n := |t|;
    assert !IsInfix("ana", t[n..]);
    assert !IsInfix("ana", t[n - 1..]);
    assert t[n - 2..][1..] == t[n - 1..];
    NotInfixStep("ana", t[n - 2..]);
    if t == "beto" {
      assert t[1..][1..] == t[2..];
      NotPrefixAtFirst("ana", t[1..]);
      NotInfixStep("ana", t[1..]);
    }
    NotPrefixAtFirst("ana", t);
    NotInfixStep("ana", t);
  }

  /** "Beto" in room "202" is not found by the search "ana". */
  lemma BetoDoesNotMatch(x: Report)
    requires x.fields.guestName == "Beto" && x.fields.roomNumber == "202"
    ensures !MatchesSearch("ana", x)
  {
    LowerKeepsLowercase("ana");
    LowerKeepsLowercase("202");
    var name := Lower(x.fields.guestName);
    assert name == "beto" by {
      assert name[0] == LowerChar('B') == 'b';
    }
    AnaNotIn("beto");
    AnaNotIn("202");
  }

  lemma AddToSecond(b: Report, a: Report, u: Update)
    requires a.id == "1" && b.id == "2"
    ensures AddUpdateTo([b, a], "1", u) == [b, a.(updates := [u] + a.updates)]
  {
    var r := AddUpdateTo([b, a], "1", u);
    assert r[0] == b;
    assert r[1].updates == [u] + a.updates;
    assert r[1] == a.(updates := [u] + a.updates);
  }

  lemma DeleteFirst(b: Report, a: Report)
    requires a.id == "1" && b.id == "2"
    ensures DeleteById([b, a], "2") == [a]
  {
    assert [b, a][1..] == [a];
  }

  lemma CreateBoth(fa: Fields, fb: Fields)
    ensures Run(Initial, [Created("1", fa), Created("2", fb)]).reports
            == [NewReport("2", fb), NewReport("1", fa)]
  {
    var es := [Created("1", fa), Created("2", fb)];
    var s1 := Step(Initial, Created("1", fa));
    assert s1.reports == [NewReport("1", fa)];
    assert es[1..] == [Created("2", fb)];
    assert Run(Initial, es) == Run(s1, [Created("2", fb)]);
    assert [Created("2", fb)][1..] == [];
    assert Run(s1, [Created("2", fb)]) == Run(Step(s1, Created("2", fb)), []);
  }

  lemma SearchAna(a: Report, b: Report)
    requires a.fields.guestName == "Ana"
    requires b.fields.guestName == "Beto" && b.fields.roomNumber == "202"
    ensures Filter([b, a], Todos, "ana") == [a]
  {
    AnaMatches(a);
    BetoDoesNotMatch(b);
    assert [b, a][1..] == [a];
  }

  lemma StepAddsUpdate(app: App, id: string, text: string, now: string)
    ensures Step(app, UpdateAdded(id, text, now)).reports == AddUpdateTo(app.reports, id, Update(text, now))
  {
  }

  lemma StepDeletes(app: App, id: string)
    ensures Step(app, Deleted(id)).reports == DeleteById(app.reports, id)
  {
  }

  /**
    Create A ("Ana", room 101) then B ("Beto", room 202); searching "ana" lists
    only A; an update "llamada" on A gives it one update; deleting B leaves
    exactly A in the unfiltered list.
  */
  lemma AnaAndBeto(fa: Fields, fb: Fields, now: string, s2: App, s3: App, s4: App)
    requires fa.guestName == "Ana" && fa.roomNumber == "101"
    requires fb.guestName == "Beto" && fb.roomNumber == "202"
    requires s2 == Run(Initial, [Created("1", fa), Created("2", fb)])
    requires s3 == Step(s2, UpdateAdded("1", "llamada", now))
    requires s4 == Step(s3, Deleted("2"))
    ensures Filter(s2.reports, Todos, "ana") == [NewReport("1", fa)]
    ensures |s3.reports| == 2 && s3.reports[1].updates == [Update("llamada", now)]
    ensures Filter(s4.reports, Todos, "") == [NewReport("1", fa).(updates := [Update("llamada", now)])]
  {
    var a := NewReport("1", fa);
    var b := NewReport("2", fb);
    CreateBoth(fa, fb);
    SearchAna(a, b);
    assert s2.reports == [b, a];
    var u := Update("llamada", now);
    StepAddsUpdate(s2, "1", "llamada", now);
    AddToSecond(b, a, u);
    var a' := a.(updates := [u]);
    assert [u] + a.updates == [u];
    assert s3.reports == [b, a'];
    StepDeletes(s3, "2");
    DeleteFirst(b, a');
    FilterShowsAll(s4.reports);
  }
}
