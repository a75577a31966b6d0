/** The process-wide variable list and the name lookup that resolves an
    identifier when a tree is built: the first entry declared under the
    name wins. */
module Environment {
  import opened Wrappers
  import opened Expressions

  /** The entry is a variable declared under `name`. */
  predicate Declares(entry: LiteralOrVar, name: string) {
    entry.VarRef? && entry.name == name
  }

  /** `vars[i]` is the earliest entry declaring `name`. */
  ghost predicate FirstDeclaration(vars: seq<LiteralOrVar>, name: string, i: int) {
    && 0 <= i < |vars|
    && Declares(vars[i], name)
    && forall j :: 0 <= j < i ==> !Declares(vars[j], name)
  }

  /** `VARS.iter().find(..)` on a name: the first matching entry, if any. */
  function Lookup(vars: seq<LiteralOrVar>, name: string): (r: Option<LiteralOrVar>)
    ensures r.None? <==> forall i :: 0 <= i < |vars| ==> !Declares(vars[i], name)
    ensures r.Some? ==> exists i :: FirstDeclaration(vars, name, i) && r.value == vars[i]
  {
    if |vars| == 0 then None
    else if Declares(vars[0], name) then
      assert FirstDeclaration(vars, name, 0);
      Some(vars[0])
    else
      var rest := Lookup(vars[1..], name);
      if rest.Some? then
        assert exists i :: FirstDeclaration(vars, name, i) && rest.value == vars[i] by {
          var i :| FirstDeclaration(vars[1..], name, i) && rest.value == vars[1..][i];
          assert FirstDeclaration(vars, name, i + 1);
        }
        rest
      else
        assert forall i :: 1 <= i < |vars| ==> vars[i] == vars[1..][i - 1];
        rest
  }

  /** Declaring a variable never changes what an already-declared name
      resolves to; a name declared for the first time resolves to the new
      entry, and other undeclared names stay undeclared. */
  lemma {:induction false} LookupAfterDeclare(vars: seq<LiteralOrVar>, entry: LiteralOrVar, name: string)
    requires entry.VarRef?
    ensures Lookup(vars + [entry], name) ==
      if Lookup(vars, name).Some? then Lookup(vars, name)
      else if entry.name == name then Some(entry)
      else None
  {
    if |vars| == 0 {
      assert vars + [entry] == [entry];
    } else {
      assert (vars + [entry])[1..] == vars[1..] + [entry];
      LookupAfterDeclare(vars[1..], entry, name);
    }
  }

  /** Appending entries of any kind keeps every resolved name resolved to
      the same entry. */
  lemma {:induction false} LookupStable(vars: seq<LiteralOrVar>, vars': seq<LiteralOrVar>, name: string)
    requires |vars| <= |vars'| && vars'[..|vars|] == vars
    requires Lookup(vars, name).Some?
    ensures Lookup(vars', name) == Lookup(vars, name)
  {
    if Declares(vars[0], name) {
      assert vars'[0] == vars[0];
    } else {
      assert vars'[0] == vars[0];
      assert vars'[1..][..|vars[1..]|] == vars[1..];
      LookupStable(vars[1..], vars'[1..], name);
    }
  }
}
