/** Label lists as comma-separated texts. Every text stands for exactly one list. */
module LabelText {

  /** strings.Split at commas. */
  function Split(s: string): (r: seq<string>)
    ensures r != []
  {
    if s == "" then [""]
    else
      var rest := Split(s[1..]);
      if s[0] == ',' then [""] + rest else [[s[0]] + rest[0]] + rest[1..]
  }

  /** strings.Join with commas. */
  function Join(labels: seq<string>): string {
    if labels == [] then ""
    else if |labels| == 1 then labels[0]
    else labels[0] + "," + Join(labels[1..])
  }

  predicate CommaFree(labels: seq<string>) {
    forall i :: 0 <= i < |labels| ==> ',' !in labels[i]
  }

  lemma JoinCons(x: string, rest: seq<string>)
    ensures Join([x] + rest) == if rest == [] then x else x + "," + Join(rest)
  {
    assert ([x] + rest)[1..] == rest;
  }

  lemma JoinStep(c: char, rest: seq<string>)
    requires rest != []
    ensures Join(if c == ',' then [""] + rest else [[c] + rest[0]] + rest[1..]) == [c] + Join(rest)
  {
    assert rest == [rest[0]] + rest[1..];
    JoinCons(rest[0], rest[1..]);
    if c == ',' {
      JoinCons("", rest);
    } else {
      JoinCons([c] + rest[0], rest[1..]);
    }
    hide Join;
  }

  lemma {:induction false} SplitIsCommaFree(s: string)
    ensures CommaFree(Split(s))
  {
    if s != "" { SplitIsCommaFree(s[1..]); }
  }

  lemma {:induction false} JoinSplit(s: string)
    ensures Join(Split(s)) == s && CommaFree(Split(s))
  {
    SplitIsCommaFree(s);
    if s != "" {
      JoinSplit(s[1..]);
      JoinStep(s[0], Split(s[1..]));
      assert s == [s[0]] + s[1..];
      hide Join;
    }
  }

  lemma {:induction false} SplitJoin(labels: seq<string>)
    requires labels != [] && CommaFree(labels)
    ensures Split(Join(labels)) == labels
    decreases |labels|, |Join(labels)|
  {
    var s := Join(labels);
    if labels[0] == "" {
      if |labels| > 1 {
        assert s[0] == ',' && s[1..] == Join(labels[1..]);
        SplitJoin(labels[1..]);
        assert labels == [""] + labels[1..];
      }
    } else {
      var c, shorter := labels[0][0], [labels[0][1..]] + labels[1..];
      assert shorter[1..] == labels[1..];
      assert s[0] == c && s[1..] == Join(shorter);
      assert CommaFree(shorter) by {
        forall i | 0 <= i < |shorter| ensures ',' !in shorter[i] {
          if i > 0 { assert shorter[i] == labels[i]; }
        }
      }
      SplitJoin(shorter);
      assert c != ',' by { assert labels[0][0] in labels[0]; }
      assert labels[0] == [c] + labels[0][1..];
      assert labels == [labels[0]] + labels[1..];
    }
  }

  lemma JoinInjective(a: seq<string>, b: seq<string>)
    requires a != [] && b != [] && CommaFree(a) && CommaFree(b) && Join(a) == Join(b)
    ensures a == b
  {
    SplitJoin(a);
    SplitJoin(b);
  }
}
