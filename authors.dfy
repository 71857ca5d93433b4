/** The author sets the traversal fills: a set of emails, read once at the end as a list. */
module Authors {

  class AuthorsSet {
    var members: set<string>

    constructor ()
      ensures members == {}
    {
      members := {};
    }

    /** The members as a list in no particular order: as many entries as members, each member
        exactly once. */
    method Slice() returns (authors: seq<string>)
      ensures |authors| == |members|
      ensures forall i, j :: 0 <= i < j < |authors| ==> authors[i] != authors[j]
      ensures forall a :: a in authors <==> a in members
    {
      var slots := new string[|members|];
      var i := 0;
      var rest := members;
      while rest != {}
        invariant rest <= members
        invariant i + |rest| == |members|
        invariant forall k :: 0 <= k < i ==> slots[k] in members && slots[k] !in rest
        invariant forall k, l :: 0 <= k < l < i ==> slots[k] != slots[l]
        invariant forall a :: a in members ==> a in rest || a in slots[..i]
        decreases rest
      {
        var a :| a in rest;
        slots[i] := a;
        assert slots[..i + 1] == slots[..i] + [a];
        i := i + 1;
        rest := rest - {a};
      }
      authors := slots[..];
    }
  }
}
