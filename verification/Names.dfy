/** Names the API server accepts: DNS-1123 subdomains. */
module Names {

  predicate Alnum(c: char) {
    'a' <= c <= 'z' || '0' <= c <= '9'
  }

  /** Read character by character: lower-case alphanumerics, dashes and dots, where the ends and the
      neighbours of every dot are alphanumerics. */
  predicate Dotted(s: string) {
    && s != ""
    && Alnum(s[0]) && Alnum(s[|s| - 1])
    && (forall i | 0 <= i < |s| :: Alnum(s[i]) || s[i] == '-' || s[i] == '.')
    && (forall i | 0 < i < |s| - 1 :: s[i] == '.' ==> Alnum(s[i - 1]) && Alnum(s[i + 1]))
  }

  predicate IsDNS1123Subdomain(s: string) {
    |s| <= 253 && Dotted(s)
  }

  // ----- the same as a grammar: labels joined by dots

  /** ASCII `a` to `z` and `0` to `9`. */
  predicate LabelEnd(c: char) {
    97 <= c as int <= 122 || 48 <= c as int <= 57
  }

  predicate Label(l: string) {
    && l != "" && LabelEnd(l[0]) && LabelEnd(l[|l| - 1])
    && forall i | 0 <= i < |l| :: LabelEnd(l[i]) || l[i] == '-'
  }

  function Join(labels: seq<string>): string
    requires labels != []
  {
    if |labels| == 1 then labels[0] else labels[0] + "." + Join(labels[1..])
  }

  ghost predicate Labels(labels: seq<string>) {
    labels != [] && forall l :: l in labels ==> Label(l)
  }

  lemma LabelIsDotted(l: string)
    requires Label(l)
    ensures Dotted(l)
  {}

  lemma PrependLabel(l: string, r: string)
    requires Label(l) && Dotted(r)
    ensures Dotted(l + "." + r)
  {
    var s := l + "." + r;
    forall i | 0 <= i < |s| ensures Alnum(s[i]) || s[i] == '-' || s[i] == '.' {
      if i > |l| {
        assert s[i] == r[i - |l| - 1];
      }
    }
    forall i | 0 < i < |s| - 1 && s[i] == '.' ensures Alnum(s[i - 1]) && Alnum(s[i + 1]) {
      if i > |l| {
        assert s[i] == r[i - |l| - 1] && s[i + 1] == r[i - |l|];
      }
    }
  }

  lemma {:induction false} JoinIsDotted(labels: seq<string>)
    requires Labels(labels)
    ensures Dotted(Join(labels))
  {
    assert Label(labels[0]);
    if |labels| == 1 {
      LabelIsDotted(labels[0]);
    } else {
      JoinIsDotted(labels[1..]);
      PrependLabel(labels[0], Join(labels[1..]));
    }
  }

  lemma SplitAtDot(s: string, i: nat)
    requires Dotted(s) && i < |s| && s[i] == '.' && forall j | 0 <= j < i :: s[j] != '.'
    ensures Label(s[..i]) && Dotted(s[i + 1..]) && s == s[..i] + "." + s[i + 1..]
  {
    var r := s[i + 1..];
    assert 0 < i < |s| - 1;
    assert forall j | 0 <= j < |r| :: r[j] == s[i + 1 + j];
    assert r[|r| - 1] == s[|s| - 1];
  }

  lemma FirstDot(s: string) returns (i: nat)
    ensures i <= |s| && (i < |s| ==> s[i] == '.') && forall j | 0 <= j < i :: s[j] != '.'
  {
    i := 0;
    while i < |s| && s[i] != '.'
      invariant i <= |s| && forall j | 0 <= j < i :: s[j] != '.'
    {
      i := i + 1;
    }
  }

  lemma {:induction false} DottedIsJoin(s: string) returns (labels: seq<string>)
    requires Dotted(s)
    ensures Labels(labels) && Join(labels) == s
    decreases |s|
  {
    var i := FirstDot(s);
    if i == |s| {
      labels := [s];
    } else {
      SplitAtDot(s, i);
      var rest := DottedIsJoin(s[i + 1..]);
      labels := [s[..i]] + rest;
      assert labels[1..] == rest;
    }
  }

  /** The character-wise check accepts exactly the names of the grammar: one or more labels joined by
      dots, 253 characters at most. */
  lemma SubdomainIff(s: string)
    ensures IsDNS1123Subdomain(s) <==> |s| <= 253 && exists labels :: Labels(labels) && Join(labels) == s
  {
    if Dotted(s) {
      var labels := DottedIsJoin(s);
    }
    forall labels | Labels(labels) && Join(labels) == s ensures Dotted(s) {
      JoinIsDotted(labels);
    }
  }
}
