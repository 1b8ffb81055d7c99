/** The language checkboxes of the onboarding form (toggleLang): ticking a
    language adds it at the end of the list, unticking removes it. */
module Languages {

  /** The list without any occurrence of `x`, order kept (the `filter`;
      WithoutAbsent, WithoutCons and WithoutAppend fix its order). */
  function Without(s: seq<string>, x: string): (r: seq<string>)
    ensures x !in r && |r| <= |s|
    ensures forall y :: y in r ==> y in s
  {
    if s == [] then []
    else (if s[0] == x then [] else [s[0]]) + Without(s[1..], x)
  }

  /** Removes `code` if listed, otherwise appends it. */
  function ToggleLang(langs: seq<string>, code: string): (r: seq<string>)
    ensures code in r <==> code !in langs
  {
    if code in langs then Without(langs, code) else langs + [code]
  }

  /** Removing `x` drops every occurrence of `x` and keeps every other
      element as often as it was there. */
  lemma {:induction false} WithoutCounts(s: seq<string>, x: string)
    ensures multiset(Without(s, x))[x] == 0
    ensures forall y :: y != x ==> multiset(Without(s, x))[y] == multiset(s)[y]
  {
    if s != [] {
      WithoutCounts(s[1..], x);
      assert s == [s[0]] + s[1..];
    }
  }

  /** Removing a value that is not listed changes nothing. */
  lemma {:induction false} WithoutAbsent(s: seq<string>, x: string)
    requires x !in s
    ensures Without(s, x) == s
  {
    if s != [] {
      WithoutAbsent(s[1..], x);
      assert s == [s[0]] + s[1..];
    }
  }

  /** After a toggle, `code` is listed exactly when it was not before, and
      every other language is listed exactly when it was before; a newly
      ticked language goes at the end. */
  lemma ToggleLangMembership(langs: seq<string>, code: string)
    ensures var r := ToggleLang(langs, code);
      && (code in r <==> code !in langs)
      && (forall y :: y != code ==> (y in r <==> y in langs))
      && (code !in langs ==> r == langs + [code])
  {
    var r := ToggleLang(langs, code);
    if code in langs {
      WithoutCounts(langs, code);
      assert forall y :: y in r <==> multiset(r)[y] > 0;
      assert forall y :: y in langs <==> multiset(langs)[y] > 0;
    }
  }

  /** Toggling a language that was not listed twice gives the list back. */
  lemma ToggleLangTwice(langs: seq<string>, code: string)
    requires code !in langs
    ensures ToggleLang(ToggleLang(langs, code), code) == langs
  {
    WithoutAbsent(langs, code);
    assert code in langs + [code];
    assert Without([code], code) == [] + Without([], code);
    assert Without(langs + [code], code) == Without(langs, code) + Without([code], code) by {
      WithoutAppend(langs, [code], code);
    }
  }

  /** Removing from a list with a first element: the first element is kept
      in front exactly when it differs from `x`. */
  lemma WithoutCons(y: string, r: seq<string>, x: string)
    ensures Without([y] + r, x) == (if y == x then [] else [y]) + Without(r, x)
  {
    assert ([y] + r)[0] == y && ([y] + r)[1..] == r;
  }

  /** Removing from a concatenation removes from both parts, each part's
      remaining elements staying in place relative to the other's. */
  lemma {:induction false} WithoutAppend(a: seq<string>, b: seq<string>, x: string)
    ensures Without(a + b, x) == Without(a, x) + Without(b, x)
  {
    if a == [] {
      assert a + b == b;
    } else {
      var head: seq<string> := if a[0] == x then [] else [a[0]];
      WithoutAppend(a[1..], b, x);
      assert a + b == [a[0]] + (a[1..] + b);
      WithoutCons(a[0], a[1..] + b, x);
      WithoutCons(a[0], a[1..], x);
      assert [a[0]] + a[1..] == a;
      assert head + (Without(a[1..], x) + Without(b, x)) == (head + Without(a[1..], x)) + Without(b, x);
    }
  }
}
