/** `ClickAliasedGroup.get_command` and `resolve_command`: a command name typed
    by the user is looked up exactly first, and otherwise resolved as the unique
    registered name it abbreviates. The registry is the list of names that
    `list_commands` yields. */
module CommandResolver {
  import opened Abbreviation
  import opened StrOrder

  /** The outcome of `get_command` for one typed token. */
  datatype Resolution =
    | Found(name: string)                 // the command registered under `name`
    | NotFound                            // `None`
    | Ambiguous(candidates: seq<string>)  // `ctx.fail(...)`, naming the candidates
    | IndexError                          // `x[0]` read on an empty token

  /** Every registered name has a first character (the source reads `y[0]`). */
  predicate NamesNonEmpty(names: seq<string>)
  {
    forall y :: y in names ==> y != []
  }

  /** No name is listed twice, as for the keys of click's command table. */
  ghost predicate NamesDistinct(names: seq<string>)
  {
    forall y :: multiset(names)[y] <= 1
  }

  /** The list comprehension `[x for x in names if is_abbrev(token, x)]`: the
      names the token abbreviates, each as often as it is listed. */
  function Matches(token: string, names: seq<string>): (r: seq<string>)
    requires token != []
    ensures forall y :: multiset(r)[y] == if IsAbbrev(token, y) then multiset(names)[y] else 0
    ensures forall y :: y in r <==> y in names && IsAbbrev(token, y)
  {
    if names == [] then []
    else
      assert names == [names[0]] + names[1..];
      (if IsAbbrev(token, names[0]) then [names[0]] else []) + Matches(token, names[1..])
  }

  /** `get_command(ctx, token)`. */
  function GetCommand(token: string, names: seq<string>): (r: Resolution)
    requires NamesNonEmpty(names)
    // an exact name wins, whatever else the token abbreviates
    ensures token in names ==> r == Found(token)
    // the source only crashes on an empty token that names nothing
    ensures r == IndexError <==> token == [] && names != []
    ensures names == [] ==> r == NotFound
    // not found: no exact name and no abbreviated name
    ensures token != [] ==> (r == NotFound <==> token !in names && forall y :: y in names ==> !IsAbbrev(token, y))
    // a resolved name is always a registered one; if it is not the token, it is
    // the only name the token abbreviates
    ensures r.Found? ==> r.name in names
    ensures r.Found? && r.name != token ==>
      IsAbbrev(token, r.name) && forall y :: y in names && IsAbbrev(token, y) ==> y == r.name
    // ambiguity lists, sorted, every abbreviated name as often as it is listed
    ensures r.Ambiguous? ==>
      && token !in names && |r.candidates| >= 2 && Sorted(r.candidates)
      && forall y :: multiset(r.candidates)[y] == if IsAbbrev(token, y) then multiset(names)[y] else 0
  {
    if token in names then Found(token)
    else if names == [] then NotFound
    else if token == [] then IndexError
    else
      var matches := Matches(token, names);
      if |matches| == 0 then NotFound
      else if |matches| == 1 then
        assert matches[0] in matches;
        Found(matches[0])
      else
        SortSorted(matches);
        SortPermutes(matches);
        Ambiguous(Sort(matches))
  }

  /** The usage error raised for an ambiguous token:
      `'<token>' is ambiguous: ` and the candidates joined by `", "`. */
  function AmbiguityMessage(token: string, candidates: seq<string>): (m: string)
  {
    "'" + token + "' is ambiguous: " + Join(candidates, ", ")
  }

  /** Where each candidate sits in the ambiguity message: after the quoted token
      and ` is ambiguous: ` (`|token| + 17` characters), the `k`-th candidate
      starts at its offset in the join (see `JoinAt` for the separators). */
  lemma AmbiguityMessageLayout(token: string, candidates: seq<string>, k: nat)
    requires k < |candidates|
    ensures |token| + 17 + Offset(candidates, ", ", k) + |candidates[k]| <= |AmbiguityMessage(token, candidates)|
    ensures AmbiguityMessage(token, candidates)[|token| + 17 + Offset(candidates, ", ", k)..][..|candidates[k]|] == candidates[k]
  {
    var prefix := "'" + token + "' is ambiguous: ";
    var j := Join(candidates, ", ");
    var m := prefix + j;
    assert |prefix| == |token| + 17;
    assert m[..|prefix|] == prefix;
    assert m[|prefix|..] == j;
    JoinAt(candidates, ", ", k);
    var o := Offset(candidates, ", ", k);
    assert m[|prefix| + o..] == j[o..];
  }

  /** The outcome of `resolve_command(ctx, args)`. */
  datatype Dispatch =
    | Invoke(name: string, rest: seq<string>)  // run the command `name` on `rest`
    | NoSuchCommand(token: string)             // click's own "no such command" failure
    | UsageError(message: string)              // the ambiguity failure
    | Crash                                    // the `IndexError` of an empty token

  /** `resolve_command(ctx, args)`: resolves the first argument and reports the
      command's full name, never the abbreviation that was typed. */
  function ResolveCommand(args: seq<string>, names: seq<string>): (d: Dispatch)
    requires args != []
    requires NamesNonEmpty(names)
    ensures d.Invoke? ==> d.name in names && d.rest == args[1..]
    ensures d.Invoke? && d.name != args[0] ==> args[0] !in names && IsAbbrev(args[0], d.name)
    // not found exactly when the token is no name and abbreviates none
    ensures d.NoSuchCommand? ==> d.token == args[0]
    ensures d.NoSuchCommand? <==>
      && args[0] !in names && (args[0] == [] ==> names == [])
      && forall y :: y in names ==> !IsAbbrev(args[0], y)
    ensures args[0] in names ==> d == Invoke(args[0], args[1..])
    // the usage error comes exactly from two or more matches, and its message
    // lists the matches in sorted order
    ensures d.UsageError? <==> args[0] != [] && args[0] !in names && |Matches(args[0], names)| >= 2
    ensures d.UsageError? ==>
      && args[0] != []
      && exists c :: && |c| >= 2 && Sorted(c) && multiset(c) == multiset(Matches(args[0], names))
                     && d.message == "'" + args[0] + "' is ambiguous: " + Join(c, ", ")
    ensures d == Crash <==> args[0] == [] && names != []
  {
    var r := GetCommand(args[0], names);
    match r
    case Found(name) => Invoke(name, args[1..])
    case NotFound => NoSuchCommand(args[0])
    case Ambiguous(candidates) =>
      assert multiset(candidates) == multiset(Matches(args[0], names));
      UsageError(AmbiguityMessage(args[0], candidates))
    case IndexError => Crash
  }

  /** With distinct names, a token that is no name and abbreviates exactly one
      name resolves to that name. */
  lemma {:induction false} UniqueAbbreviationResolves(token: string, names: seq<string>, y: string)
    requires NamesNonEmpty(names) && NamesDistinct(names)
    requires token !in names && y in names && IsAbbrev(token, y)
    requires forall z :: z in names && IsAbbrev(token, z) ==> z == y
    ensures GetCommand(token, names) == Found(y)
  {
    var matches := Matches(token, names);
    assert multiset(matches) == multiset{y} by {
      assert y in multiset(names);
      forall z
        ensures multiset(matches)[z] == multiset{y}[z]
      {
        if z in names {
        } else {
          assert multiset(names)[z] == 0;
        }
      }
    }
    assert |matches| == |multiset(matches)| == 1;
    assert matches[0] in multiset(matches);
  }

  /** With distinct names, a token that is no name and abbreviates exactly one
      name runs that command, as follows from the contract of `ResolveCommand`. */
  lemma UniqueAbbreviationRuns(args: seq<string>, names: seq<string>, y: string)
    requires args != [] && NamesNonEmpty(names) && NamesDistinct(names)
    requires args[0] !in names && y in names && IsAbbrev(args[0], y)
    requires forall z :: z in names && IsAbbrev(args[0], z) ==> z == y
    ensures ResolveCommand(args, names) == Invoke(y, args[1..])
  {
    var m := Matches(args[0], names);
    assert multiset(m) == multiset{y} by {
      forall z
        ensures multiset(m)[z] == multiset{y}[z]
      {
        if z !in names {
          assert multiset(names)[z] == 0;
        }
      }
    }
    assert |m| == 1;
  }

  /** With distinct names, an ambiguous token lists every candidate once. */
  lemma AmbiguousCandidatesDistinct(token: string, names: seq<string>)
    requires NamesNonEmpty(names) && NamesDistinct(names)
    requires GetCommand(token, names).Ambiguous?
    ensures NamesDistinct(GetCommand(token, names).candidates)
  {
  }

  /** The order in which the registry lists its names changes nothing, not even
      the order of the candidates in an ambiguity message. */
  lemma {:induction false} OrderIndependent(token: string, names1: seq<string>, names2: seq<string>)
    requires NamesNonEmpty(names1) && NamesNonEmpty(names2)
    requires multiset(names1) == multiset(names2)
    ensures GetCommand(token, names1) == GetCommand(token, names2)
  {
    assert token in names1 <==> token in names2 by {
      assert token in names1 <==> token in multiset(names1);
    }
    assert |names1| == |multiset(names1)| == |names2|;
    if token !in names1 && token != [] && names1 != [] {
      var m1, m2 := Matches(token, names1), Matches(token, names2);
      assert multiset(m1) == multiset(m2) by {
        forall y
          ensures multiset(m1)[y] == multiset(m2)[y]
        {
        }
      }
      assert |m1| == |multiset(m1)| == |m2|;
      if |m1| == 1 {
        assert m1 == [m1[0]] && m2 == [m2[0]];
        assert m1[0] in multiset(m2);
      } else if |m1| > 1 {
        SortSorted(m1);
        SortSorted(m2);
        SortPermutes(m1);
        SortPermutes(m2);
        SortedUnique(Sort(m1), Sort(m2));
      }
    }
  }

  /** An exact name wins even when the token abbreviates another name too. */
  lemma ExactNameWins()
    ensures IsAbbrev("log", "logs")
    ensures GetCommand("log", ["log", "logs"]) == Found("log")
  {
    assert IsSubsequence("log", "logs") by {
      assert IsSubsequence("og", "ogs") by {
        assert IsSubsequence("g", "gs");
      }
    }
  }

  /** A token that is no name and abbreviates two different names is ambiguous. */
  lemma TwoAbbreviatedAmbiguous(token: string, names: seq<string>, a: string, b: string)
    requires NamesNonEmpty(names)
    requires token !in names && a in names && b in names && a != b
    requires IsAbbrev(token, a) && IsAbbrev(token, b)
    ensures GetCommand(token, names).Ambiguous?
  {
  }

  /** A token that is no name and abbreviates every name lists all of them
      when it is ambiguous. */
  lemma AbbreviatesAllCandidates(token: string, names: seq<string>)
    requires NamesNonEmpty(names) && token !in names
    requires forall y :: y in names ==> IsAbbrev(token, y)
    requires GetCommand(token, names).Ambiguous?
    ensures multiset(GetCommand(token, names).candidates) == multiset(names)
  {
    var c := GetCommand(token, names).candidates;
    forall y
      ensures multiset(c)[y] == multiset(names)[y]
    {
      if y !in names {
        assert multiset(names)[y] == 0;
      }
    }
  }

  /** "de" against deploy, delete and describe is ambiguous, listed sorted.
      The token and the names are parameters pinned by the precondition rather
      than literals in the call, which keeps the verifier from evaluating
      `GetCommand` on literal arguments (too costly for the resource limit). */
  lemma AmbiguousExample(token: string, names: seq<string>)
    requires token == "de" && names == ["deploy", "delete", "describe"]
    ensures GetCommand(token, names) == Ambiguous(["delete", "deploy", "describe"])
  {
    DeAbbreviatesAll(token, names);
    DistinctLiterals();
    TwoAbbreviatedAmbiguous(token, names, "deploy", "delete");
    AbbreviatesAllCandidates(token, names);
    SortedLiteral(names, GetCommand(token, names).candidates);
  }

  lemma DeAbbreviatesAll(token: string, names: seq<string>)
    requires token == "de" && names == ["deploy", "delete", "describe"]
    ensures token !in names && "deploy" in names && "delete" in names
    ensures forall y :: y in names ==> IsAbbrev(token, y)
  {
    AllAbbreviatedByDe();
  }

  lemma SortedLiteral(names: seq<string>, c: seq<string>)
    requires names == ["deploy", "delete", "describe"]
    requires multiset(c) == multiset(names) && Sorted(c)
    ensures c == ["delete", "deploy", "describe"]
  {
    var sorted := ["delete", "deploy", "describe"];
    assert multiset(names) == multiset(sorted);
    assert Sorted(sorted) by {
      LiteralOrder();
    }
    SortedUnique(c, sorted);
  }

  lemma DistinctLiterals()
    ensures "deploy" != "delete"
  {
    assert "deploy"[2] != "delete"[2];
  }

  lemma AllAbbreviatedByDe()
    ensures IsAbbrev("de", "deploy") && IsAbbrev("de", "delete") && IsAbbrev("de", "describe")
  {
    assert IsSubsequence("e", "eploy") && IsSubsequence("e", "elete") && IsSubsequence("e", "escribe");
  }

  lemma LiteralOrder()
    ensures Less("delete", "deploy") && Less("deploy", "describe") && Less("delete", "describe")
    ensures !Less("deploy", "delete") && !Less("describe", "deploy") && !Less("describe", "delete")
  {
    assert Less("lete", "ploy") && Less("ploy", "scribe") && Less("lete", "scribe");
    assert !Less("ploy", "lete") && !Less("scribe", "ploy") && !Less("scribe", "lete");
  }

  /** "dp" resolves to deploy; status fails the first-character test. */
  lemma ResolvedExample()
    ensures GetCommand("dp", ["deploy", "status"]) == Found("deploy")
  {
    assert IsSubsequence("p", "eploy") by {
      assert IsSubsequence("p", "ploy");
    }
    assert !IsAbbrev("dp", "status");
    assert Matches("dp", ["deploy", "status"]) == ["deploy"];
  }

  /** "xz" names nothing among logs. */
  lemma NotFoundExample()
    ensures GetCommand("xz", ["logs"]) == NotFound
  {
    assert !IsAbbrev("xz", "logs");
  }
}
