/** The search for an unused server name (Settings::nextAvailableServerName, client/settings.cpp). */
module ServerNames {
  import opened Decimals

  /** The translated word, a blank and a number. */
  function Name(word: string, i: nat): string { word + " " + Decimal(i) }

  lemma NamesDiffer(word: string, i: nat, j: nat)
    ensures Name(word, i) == Name(word, j) ==> i == j
  {
    var a, b := Name(word, i), Name(word, j);
    var n := |word| + 1;
    assert a[n..] == Decimal(i) && b[n..] == Decimal(j);
    ReadsBack(i);
    ReadsBack(j);
  }

  /** Distinct names need distinct servers. */
  lemma {:induction false} Pigeonhole(word: string, names: seq<string>, i: nat)
    requires forall j :: 1 <= j <= i ==> Name(word, j) in names
    ensures i <= |names|
    decreases i
  {
    if i > 0 {
      var k :| 0 <= k < |names| && names[k] == Name(word, i);
      var others := names[..k] + names[k + 1..];
      forall j | 1 <= j <= i - 1 ensures Name(word, j) in others {
        NamesDiffer(word, i, j);
        var m :| 0 <= m < |names| && names[m] == Name(word, j);
        assert others[if m < k then m else m - 1] == names[m];
      }
      Pigeonhole(word, others, i - 1);
    }
  }

  /** The first numbered name that no server has; found after at most one try more than servers. */
  method NextAvailableServerName(word: string, descriptions: seq<string>) returns (name: string, i: nat)
    ensures 1 <= i <= |descriptions| + 1 && name == Name(word, i)
    ensures name !in descriptions
    ensures forall j :: 1 <= j < i ==> Name(word, j) in descriptions
  {
    i := 0;
    var nameExist := true;
    while nameExist
      invariant nameExist ==> i <= |descriptions| && forall j :: 1 <= j <= i ==> Name(word, j) in descriptions
      invariant !nameExist ==> 1 <= i <= |descriptions| + 1 && Name(word, i) !in descriptions
      invariant forall j :: 1 <= j < i ==> Name(word, j) in descriptions
      decreases nameExist, |descriptions| - i
    {
      i := i + 1;
      nameExist := false;
      var k := 0;
      while k < |descriptions| && !nameExist
        invariant 0 <= k <= |descriptions|
        invariant nameExist <==> exists m :: 0 <= m < k && descriptions[m] == Name(word, i)
      {
        if descriptions[k] == Name(word, i) { nameExist := true; }
        k := k + 1;
      }
      if nameExist { Pigeonhole(word, descriptions, i); }
    }
    name := Name(word, i);
  }
}
