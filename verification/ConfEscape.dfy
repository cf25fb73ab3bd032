/** sym_escape_string_value: the buffer has exactly the size computed first. */
module ConfEscape {
  import opened Sequences
  import opened ConfText
  import opened ConfLines

  // Plain characters stand for themselves.
  lemma {:induction false} BodyOfPlain(s: string)
    requires forall j :: 0 <= j < |s| ==> !IsSpecial(s[j])
    ensures EscapeBody(s) == s
  {
    if s != "" {
      BodyOfPlain(s[..|s| - 1]);
      assert s == s[..|s| - 1] + [s[|s| - 1]];
    }
  }

  // strcspn(p, "\"\\")
  method LengthToSpecial(s: string, p: nat) returns (l: nat)
    requires p <= |s|
    ensures p + l <= |s| && (p + l < |s| ==> IsSpecial(s[p + l]))
    ensures EscapeBody(s[..p + l]) == EscapeBody(s[..p]) + s[p..p + l]
  {
    l := 0;
    while p + l < |s| && !IsSpecial(s[p + l])
      invariant p + l <= |s| && forall j :: p <= j < p + l ==> !IsSpecial(s[j])
    {
      l := l + 1;
    }
    BodyAfterPlain(s, p, l);
  }

  lemma BodyAfterPlain(s: string, p: nat, l: nat)
    requires p + l <= |s| && forall j :: p <= j < p + l ==> !IsSpecial(s[j])
    ensures EscapeBody(s[..p + l]) == EscapeBody(s[..p]) + s[p..p + l]
  {
    BodyOfPlain(s[p..p + l]);
    hide EscapeBody;
    BodyConcat(s[..p], s[p..p + l]);
    assert s[..p + l] == s[..p] + s[p..p + l];
  }

  lemma BodyOfSpecial(s: string, p: nat)
    requires p < |s| && IsSpecial(s[p])
    ensures EscapeBody(s[..p + 1]) == EscapeBody(s[..p]) + ['\\', s[p]]
  {
    assert s[..p + 1][..p] == s[..p];
  }

  lemma BodyOfPrefix(s: string, p: nat)
    requires p <= |s|
    ensures |EscapeBody(s[..p])| + |EscapeBody(s[p..])| == |EscapeBody(s)|
  {
    BodyConcat(s[..p], s[p..]);
    assert s[..p] + s[p..] == s;
  }

  // strcat and strncat, where the text in the buffer ends at n.
  method StrCat(res: array<char>, n: nat, x: string) returns (n': nat)
    requires n + |x| < res.Length
    modifies res
    ensures n' == n + |x| && res[..n'] == old(res[..n]) + x && res[n'] == '\0'
  {
    forall i | 0 <= i < |x| { res[n + i] := x[i]; }
    res[n + |x|] := '\0';
    n' := n + |x|;
  }

  /** The first loop counts, the second copies; together with its quotes and the
      final NUL the text fills the buffer. */
  method EscapeStringValue(s: string) returns (res: array<char>)
    ensures fresh(res) && res.Length == |Escape(s)| + 1
    ensures res[..|Escape(s)|] == Escape(s) && res[|Escape(s)|] == '\0'
  {
    hide EscapeBody, IsCopied;
    var reslen := ReservedLength(s);
    res := new char[reslen];
    res[0] := '\0';
    var n: nat := StrCat(res, 0, "\"");
    var p := 0;
    FirstCopied(res, s);
    while true
      invariant p <= |s| && IsCopied(res, n, s, p)
      decreases |s| - p
    {
      n, p := CopyPlain(res, n, s, p);
      if p == |s| {
        break;
      }
      n := CopySpecial(res, n, s, p);
      p := p + 1;
    }
    AllCopied(res, n, s);
    n := StrCat(res, n, "\"");
  }

  // The opening quote and the first p characters are in the buffer.
  ghost predicate IsCopied(res: array<char>, n: nat, s: string, p: nat)
    reads res
  {
    && p <= |s| && n < res.Length && res.Length == |EscapeBody(s)| + 3
    && res[..n] == "\"" + EscapeBody(s[..p])
  }

  lemma FirstCopied(res: array<char>, s: string)
    requires res.Length == |Escape(s)| + 1 && res[..1] == "\""
    ensures IsCopied(res, 1, s, 0)
  {
    EmptyBody(s);
    assert "\"" + "" == "\"";
  }

  lemma AllCopied(res: array<char>, n: nat, s: string)
    requires IsCopied(res, n, s, |s|)
    ensures res.Length == |Escape(s)| + 1 && n + 1 == |Escape(s)| && res[..n] + "\"" == Escape(s)
  {
    assert s[..|s|] == s;
  }

  method CopyPlain(res: array<char>, n: nat, s: string, p: nat) returns (n': nat, p': nat)
    requires IsCopied(res, n, s, p)
    modifies res
    ensures p <= p' <= |s| && IsCopied(res, n', s, p') && (p' < |s| ==> IsSpecial(s[p']))
  {
    hide EscapeBody;
    var l := LengthToSpecial(s, p);
    BodyOfPrefix(s, p + l);
    n' := StrCat(res, n, s[p..p + l]);
    p' := p + l;
  }

  method CopySpecial(res: array<char>, n: nat, s: string, p: nat) returns (n': nat)
    requires IsCopied(res, n, s, p) && p < |s| && IsSpecial(s[p])
    modifies res
    ensures IsCopied(res, n', s, p + 1)
  {
    hide EscapeBody;
    BodyOfSpecial(s, p);
    BodyOfPrefix(s, p + 1);
    n' := StrCat(res, n, "\\");
    n' := StrCat(res, n', [s[p]]);
  }

  method ReservedLength(s: string) returns (reslen: nat)
    ensures reslen == |Escape(s)| + 1
  {
    hide EscapeBody;
    reslen := |s| + 2 + 1;
    var p := 0;
    EmptyBody(s);
    while true
      invariant p <= |s| && reslen == |s| - p + |EscapeBody(s[..p])| + 3
      decreases |s| - p
    {
      var l := LengthToSpecial(s, p);
      p := p + l;
      if p == |s| {
        break;
      }
      BodyOfSpecial(s, p);
      reslen := reslen + 1;
      p := p + 1;
    }
    assert s[..p] == s;
  }

  lemma EmptyBody(s: string)
    ensures EscapeBody(s[..0]) == ""
  {
    assert s[..0] == "";
  }
}
