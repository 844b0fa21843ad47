/** The symbol list of `libdef`: names bound to a value and to where they were last defined or undefined. */
module Defines {
  import opened Basics

  datatype Kind = CmdDefine | CmdUndef | ForthDefine | ForthUndef

  predicate Defining(k: Kind) { k.CmdDefine? || k.ForthDefine? }

  datatype Def = Def(name: string, value: Option<string>, kind: Kind)

  /** The part of a definition before its `=`, and the value after it, if there is one. */
  function NameOf(arg: string): (n: string)
    ensures n <= arg && '=' !in n
    ensures n == arg || arg[|n|] == '='
  {
    if arg == "" || arg[0] == '=' then "" else [arg[0]] + NameOf(arg[1..])
  }

  function ValueOf(arg: string): Option<string> {
    if NameOf(arg) == arg then None else Some(arg[|NameOf(arg)| + 1..])
  }

  /** An argument is its name, or its name, an `=` and its value; the value may hold more of them. */
  lemma {:induction false} NameAndValue(arg: string)
    ensures ValueOf(arg).None? <==> '=' !in arg
    ensures arg == match ValueOf(arg) case None => NameOf(arg) case Some(v) => NameOf(arg) + "=" + v
  {
    var n := NameOf(arg);
    if n != arg { assert arg == arg[..|n|] + [arg[|n|]] + arg[|n| + 1..]; }
  }

  /** And only so can it be taken apart. */
  lemma {:induction false} Argument(n: string, v: string)
    requires '=' !in n
    ensures NameOf(n + "=" + v) == n && ValueOf(n + "=" + v) == Some(v)
    ensures NameOf(n) == n && ValueOf(n) == None
  {
    CutName(n, v);
    assert (n + "=" + v)[|n| + 1..] == v;
  }

  lemma {:induction false} CutName(n: string, v: string)
    requires '=' !in n
    ensures NameOf(n + "=" + v) == n && NameOf(n) == n
  {
    if n != "" {
      CutName(n[1..], v);
      assert (n + "=" + v)[1..] == n[1..] + "=" + v;
      assert n == [n[0]] + n[1..];
    }
  }

  /** The binding that the list holds for a name: the first entry of that name. */
  ghost function Lookup(es: seq<Def>, name: string): Option<Def> {
    if es == [] then None else if es[0].name == name then Some(es[0]) else Lookup(es[1..], name)
  }

  /** The binding of `n` once `d` has been recorded. */
  ghost function Bound(es: seq<Def>, n: string, d: Def): Option<Def> {
    if n == d.name then Some(d) else Lookup(es, n)
  }

  /** What `undef_symbol` records: a found entry keeps its value; otherwise the argument is cut at its `=`. */
  ghost function Undefined(es: seq<Def>, name: string, kind: Kind): (d: Def)
    ensures Lookup(es, name).Some? ==> d.name == name && d.kind == kind
  {
    LookupName(es, name);
    if Lookup(es, name).Some? then Lookup(es, name).value.(kind := kind) else Def(NameOf(name), ValueOf(name), kind)
  }

  lemma {:induction false} LookupName(es: seq<Def>, name: string)
    ensures Lookup(es, name).Some? ==> Lookup(es, name).value.name == name
  {
    if es != [] { LookupName(es[1..], name); }
  }

  /** The names that test as defined. */
  ghost function DefinedNames(es: seq<Def>): set<string> {
    if es == [] then {} else
      var others := DefinedNames(es[1..]) - {es[0].name};
      if Defining(es[0].kind) then others + {es[0].name} else others
  }

  lemma {:induction false} DefinedNamesLookup(es: seq<Def>, name: string)
    ensures name in DefinedNames(es) <==> Lookup(es, name).Some? && Defining(Lookup(es, name).value.kind)
  {
    if es != [] { DefinedNamesLookup(es[1..], name); }
  }

  /** Where `find_symbol`'s walk stops: at the first entry of the name, or at the end of the list. */
  lemma {:induction false} LookupAt(es: seq<Def>, i: nat, name: string)
    requires i <= |es|
    requires forall j :: 0 <= j < i ==> es[j].name != name
    requires i < |es| ==> es[i].name == name
    ensures Lookup(es, name) == if i < |es| then Some(es[i]) else None
  {
    if i > 0 { LookupAt(es[1..], i - 1, name); }
  }

  lemma {:induction false} LookupUpdate(es: seq<Def>, i: nat, d: Def, name: string)
    requires i < |es| && es[i].name == d.name
    requires forall j :: 0 <= j < i ==> es[j].name != d.name
    ensures Lookup(es[i := d], name) == if name == d.name then Some(d) else Lookup(es, name)
  {
    if i > 0 {
      LookupUpdate(es[1..], i - 1, d, name);
      assert es[i := d][1..] == es[1..][i - 1 := d];
    } else {
      assert es[i := d][1..] == es[1..];
    }
  }

  class SymbolTable {
    /** `symbol_root`'s list, newest entry first. */
    var entries: seq<Def>

    constructor ()
      ensures entries == [] && DefinedNames(entries) == {}
    {
      entries := [];
    }

    method FindSymbol(name: string) returns (i: nat)
      ensures i <= |entries|
      ensures forall j :: 0 <= j < i ==> entries[j].name != name
      ensures i < |entries| ==> entries[i].name == name
      ensures Lookup(entries, name) == if i < |entries| then Some(entries[i]) else None
    {
      i := 0;
      while i < |entries| && entries[i].name != name
        invariant i <= |entries|
        invariant forall j :: 0 <= j < i ==> entries[j].name != name
      {
        i := i + 1;
      }
      LookupAt(entries, i, name);
    }

    /** Binds one name, overwriting its entry or prepending one, and leaves every other name as it was. */
    method DefineSymbol(arg: string, kind: Kind)
      modifies this
      ensures forall n :: Lookup(entries, n) == Bound(old(entries), n, Def(NameOf(arg), ValueOf(arg), kind))
      ensures DefinedNames(entries) ==
        if Defining(kind) then old(DefinedNames(entries)) + {NameOf(arg)}
        else old(DefinedNames(entries)) - {NameOf(arg)}
      ensures NameOf(arg) in DefinedNames(entries) <==> kind.CmdDefine? || kind.ForthDefine?
    {
      var d := Def(NameOf(arg), ValueOf(arg), kind);
      var i := FindSymbol(d.name);
      ghost var was := entries;
      if i < |entries| {
        entries := entries[i := d];
        forall n ensures Lookup(entries, n) == if n == d.name then Some(d) else Lookup(was, n) {
          LookupUpdate(was, i, d, n);
        }
      } else {
        entries := [d] + entries;
      }
      forall n ensures n in DefinedNames(entries) <==>
          if n == d.name then Defining(kind) else n in DefinedNames(was) {
        DefinedNamesLookup(entries, n);
        DefinedNamesLookup(was, n);
      }
    }

    /** Unlike `DefineSymbol`, keeps the value of a name it finds, and looks it up with any `=` still attached. */
    method UndefSymbol(name: string, kind: Kind)
      modifies this
      ensures forall n :: Lookup(entries, n) == Bound(old(entries), n, Undefined(old(entries), name, kind))
      ensures kind.CmdUndef? || kind.ForthUndef? ==> name !in DefinedNames(entries)
    {
      var i := FindSymbol(name);
      ghost var was := entries;
      if i < |entries| {
        var d := entries[i].(kind := kind);
        entries := entries[i := d];
        forall n ensures Lookup(entries, n) == if n == name then Some(d) else Lookup(was, n) {
          LookupUpdate(was, i, d, n);
        }
      } else {
        DefineSymbol(name, kind);
      }
      DefinedNamesLookup(was, name);
      DefinedNamesLookup(entries, name);
    }

    method SymbolDefined(name: string) returns (r: bool)
      ensures r == (name in DefinedNames(entries))
    {
      var i := FindSymbol(name);
      DefinedNamesLookup(entries, name);
      r := i < |entries| && Defining(entries[i].kind);
    }
  }
}
