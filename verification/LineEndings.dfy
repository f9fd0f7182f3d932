/** CRLF normalisation and restoration around an edit. */
module LineEndings {
  import opened Text

  /** Text without the CR of each CR LF pair. */
  function ToLf(s: string): string {
    if s == [] then []
    else if s[0] == '\r' && |s| > 1 && s[1] == '\n' then ToLf(s[1..])
    else [s[0]] + ToLf(s[1..])
  }

  /** Text with a CR before every LF. */
  function ToCrlf(s: string): string {
    if s == [] then []
    else (if s[0] == '\n' then "\r\n" else [s[0]]) + ToCrlf(s[1..])
  }

  predicate HasCrlf(s: string) {
    Find(s, "\r\n", 0).Some?
  }

  /** Some LF has a CR right before it. */
  ghost predicate SomeLfAfterCr(s: string) {
    exists i :: 0 < i < |s| && s[i] == '\n' && s[i - 1] == '\r'
  }

  lemma HasCrlfMeans(s: string)
    ensures HasCrlf(s) <==> SomeLfAfterCr(s)
  {
    var p := Find(s, "\r\n", 0);
    if p.Some? { assert s[p.value..p.value + 2][1] == s[p.value + 1] && s[p.value..p.value + 2][0] == s[p.value]; }
    if SomeLfAfterCr(s) {
      var i :| 0 < i < |s| && s[i] == '\n' && s[i - 1] == '\r';
      assert OccursAt(s, "\r\n", i - 1);
    }
  }

  /** Every LF has a CR right before it. */
  ghost predicate EveryLfAfterCr(s: string) {
    forall i | 0 <= i < |s| && s[i] == '\n' :: i > 0 && s[i - 1] == '\r'
  }

  method NormalizeLineEndings(s: string) returns (r: string)
    ensures r == ToLf(s)
  {
    r := [];
    for i := 0 to |s|
      invariant r + ToLf(s[i..]) == ToLf(s)
    {
      assert s[i..][1..] == s[i + 1..];
      if s[i] == '\r' && i + 1 < |s| && s[i + 1] == '\n' {
        continue;
      }
      r := r + [s[i]];
    }
  }

  method RestoreLineEndings(s: string) returns (r: string)
    ensures r == ToCrlf(s)
  {
    r := [];
    for i := 0 to |s|
      invariant r + ToCrlf(s[i..]) == ToCrlf(s)
    {
      CrlfStep(s, i, r);
      if s[i] == '\n' {
        r := r + ['\r'];
      }
      r := r + [s[i]];
    }
  }

  lemma CrlfStep(s: string, i: nat, r: string)
    requires i < |s|
    ensures var lead := if s[i] == '\n' then r + ['\r'] else r;
            (lead + [s[i]]) + ToCrlf(s[i + 1..]) == r + ToCrlf(s[i..])
  {
    assert s[i..][1..] == s[i + 1..];
  }

  /** Normalising undoes restoring, for every text. */
  lemma {:induction false} LfOfCrlf(s: string)
    ensures ToLf(ToCrlf(s)) == s
  {
    if s != [] {
      LfOfCrlf(s[1..]);
      LfOfStep(s[0], ToCrlf(s[1..]));
      assert [s[0]] + s[1..] == s;
    }
  }

  lemma LfOfStep(c: char, t: string)
    requires c == '\r' && t != [] ==> t[0] != '\n'
    ensures ToLf((if c == '\n' then "\r\n" else [c]) + t) == [c] + ToLf(t)
  {
    if c == '\n' {
      assert ("\r\n" + t)[1..] == "\n" + t && ("\n" + t)[1..] == t;
    } else {
      assert ([c] + t)[1..] == t;
    }
  }

  /** Restoring undoes normalising exactly on texts whose every LF follows a CR. */
  lemma {:induction false} CrlfOfLf(s: string)
    ensures ToCrlf(ToLf(s)) == s <==> EveryLfAfterCr(s)
    decreases |s|
  {
    if s != [] {
      var t := s[1..];
      if s[0] == '\r' && |s| > 1 && s[1] == '\n' {
        CrlfOfLf(t[1..]);
        PairStep(s, t[1..]);
        AfterCrShift(s, t[1..], 2);
      } else if s[0] == '\n' {
        assert ToCrlf(ToLf(s))[0] == '\r';
      } else {
        CrlfOfLf(t);
        OtherStep(s, t);
        AfterCrShift(s, t, 1);
      }
    }
  }

  lemma PairStep(s: string, u: string)
    requires s == "\r\n" + u
    ensures ToCrlf(ToLf(s)) == s <==> ToCrlf(ToLf(u)) == u
  {
    assert s[1..] == "\n" + u && ("\n" + u)[1..] == u;
    assert ToLf(s) == "\n" + ToLf(u) && ToLf(s)[1..] == ToLf(u);
    SameTail("\r\n", ToCrlf(ToLf(u)), u);
  }

  lemma OtherStep(s: string, t: string)
    requires s != [] && t == s[1..] && s[0] != '\n' && !(s[0] == '\r' && t != [] && t[0] == '\n')
    ensures ToCrlf(ToLf(s)) == s <==> ToCrlf(ToLf(t)) == t
  {
    assert ToLf(s) == [s[0]] + ToLf(t) && ToLf(s)[1..] == ToLf(t);
    assert s == [s[0]] + t;
    SameTail([s[0]], ToCrlf(ToLf(t)), t);
  }

  lemma SameTail(head: string, a: string, b: string)
    ensures head + a == head + b <==> a == b
  {
    assert (head + a)[|head|..] == a && (head + b)[|head|..] == b;
  }

  lemma AfterCrShift(s: string, t: string, n: nat)
    requires n <= |s| && t == s[n..] && n > 0 && (t != [] && t[0] == '\n' ==> s[n - 1] != '\r')
    requires forall i | 0 <= i < n && s[i] == '\n' :: i > 0 && s[i - 1] == '\r'
    ensures EveryLfAfterCr(s) <==> EveryLfAfterCr(t)
  {
    if EveryLfAfterCr(t) {
      forall i | 0 <= i < |s| && s[i] == '\n' ensures i > 0 && s[i - 1] == '\r' {
        if i >= n {
          assert t[i - n] == '\n';
          assert t[i - n - 1] == s[i - 1];
        }
      }
    }
    if EveryLfAfterCr(s) {
      forall i | 0 <= i < |t| && t[i] == '\n' ensures i > 0 && t[i - 1] == '\r' {
        assert s[i + n] == '\n' && s[i + n - 1] == '\r';
      }
    }
  }
}
