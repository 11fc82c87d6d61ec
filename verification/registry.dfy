/** The rack registry: `DuckStorage` of src/lib/duck-storage.js (register
    and look up) and `DuckStorageClass` of dist/duck-storage.js, which adds
    removal and listing.  Both keep racks in an `Object.create(null)` map from
    rack name to rack; here it is an ordered list of named entries, in the
    order `Object.keys` reports them.
 */
module Registry {
  import opened Results
  import opened JsValues
  import Rack

  datatype Entry<R> = Entry(name: string, rack: R)

  function Names<R>(reg: seq<Entry<R>>): (names: seq<string>)
    ensures |names| == |reg|
    ensures forall i :: 0 <= i < |reg| ==> names[i] == reg[i].name
  {
    if reg == [] then [] else [reg[0].name] + Names(reg[1..])
  }

  /** `store[rackName]`: the rack registered under that name, if any. */
  function Lookup<R>(reg: seq<Entry<R>>, name: string): (r: Option<R>)
    ensures r.None? <==> name !in Names(reg)
  {
    if reg == [] then None
    else if reg[0].name == name then Some(reg[0].rack)
    else
      assert Names(reg[1..]) == Names(reg)[1..];
      Lookup(reg[1..], name)
  }

  /** `registerRack(duckRack)`: a name already taken is refused and the
      registry stays as it was; otherwise the rack is stored under its name,
      after all earlier names. */
  function RegisterRack<R>(reg: seq<Entry<R>>, name: string, rack: R): (r: Result<seq<Entry<R>>>)
    ensures r.Err? <==> name in Names(reg)
    ensures r.Err? ==> r.error == Plain("a DuckRack with the name " + name + " is already registered")
    ensures r.Ok? ==> r.value == reg + [Entry(name, rack)]
  {
    if Lookup(reg, name).Some? then Err(Plain("a DuckRack with the name " + name + " is already registered"))
    else Ok(reg + [Entry(name, rack)])
  }

  /** `removeRack(rackName)` (dist): an unknown name is refused; otherwise
      that name's entry goes and the others keep their order. */
  function RemoveRack<R>(reg: seq<Entry<R>>, name: string): (r: Result<seq<Entry<R>>>)
    ensures r.Err? <==> name !in Names(reg)
    ensures r.Err? ==> r.error == Plain("a DuckRack with the name " + name + " could not be found")
    ensures r.Ok? ==> name !in Names(r.value) && |r.value| < |reg|
  {
    if Lookup(reg, name).None? then Err(Plain("a DuckRack with the name " + name + " could not be found"))
    else Ok(Without(reg, name))
  }

  function Without<R>(reg: seq<Entry<R>>, name: string): (r: seq<Entry<R>>)
    ensures name !in Names(r)
    ensures |r| <= |reg|
    ensures name in Names(reg) ==> |r| < |reg|
  {
    if reg == [] then []
    else
      var rest := Without(reg[1..], name);
      assert Names(reg[1..]) == Names(reg)[1..];
      if reg[0].name == name then rest
      else
        assert Names([reg[0]] + rest) == [reg[0].name] + Names(rest) by {
          assert ([reg[0]] + rest)[1..] == rest;
        }
        [reg[0]] + rest
  }

  /** `listRacks()` (dist): the registered names. */
  function ListRacks<R>(reg: seq<Entry<R>>): (names: seq<string>)
    ensures forall n :: n in names <==> Lookup(reg, n).Some?
  {
    Names(reg)
  }

  /** The registry never holds a name twice. */
  predicate UniqueNames<R>(reg: seq<Entry<R>>) {
    Distinct(Names(reg))
  }

  lemma {:induction false} NamesAppend<R>(a: seq<Entry<R>>, b: seq<Entry<R>>)
    ensures Names(a + b) == Names(a) + Names(b)
  {
    if a == [] {
      assert a + b == b;
    } else {
      assert (a + b)[1..] == a[1..] + b;
      NamesAppend(a[1..], b);
    }
  }

  /** After registering, the name finds the new rack, every other name finds
      what it found before, the names stay unique, and the new name is listed
      last. */
  lemma RegisterThenGet<R>(reg: seq<Entry<R>>, name: string, rack: R, other: string)
    requires UniqueNames(reg)
    requires RegisterRack(reg, name, rack).Ok?
    ensures var reg' := RegisterRack(reg, name, rack).value;
      && Lookup(reg', name) == Some(rack)
      && (other != name ==> Lookup(reg', other) == Lookup(reg, other))
      && UniqueNames(reg')
      && ListRacks(reg') == ListRacks(reg) + [name]
  {
    var reg' := reg + [Entry(name, rack)];
    NamesAppend(reg, [Entry(name, rack)]);
    LookupAppend(reg, Entry(name, rack), name);
    LookupAppend(reg, Entry(name, rack), other);
  }

  lemma {:induction false} LookupAppend<R>(reg: seq<Entry<R>>, e: Entry<R>, n: string)
    ensures Lookup(reg + [e], n) == if Lookup(reg, n).Some? then Lookup(reg, n) else if e.name == n then Some(e.rack) else None
  {
    if reg == [] {
      assert reg + [e] == [e];
    } else {
      assert (reg + [e])[1..] == reg[1..] + [e];
      LookupAppend(reg[1..], e, n);
    }
  }

  lemma {:induction false} LookupWithout<R>(reg: seq<Entry<R>>, name: string, n: string)
    requires n != name
    ensures Lookup(Without(reg, name), n) == Lookup(reg, n)
  {
    if reg != [] {
      LookupWithout(reg[1..], name, n);
      if reg[0].name != name {
        assert ([reg[0]] + Without(reg[1..], name))[1..] == Without(reg[1..], name);
      }
    }
  }

  /** Removing a name makes it unknown and leaves every other name bound to
      the same rack. */
  lemma RemoveThenGet<R>(reg: seq<Entry<R>>, name: string, other: string)
    requires RemoveRack(reg, name).Ok?
    ensures Lookup(RemoveRack(reg, name).value, name).None?
    ensures other != name ==> Lookup(RemoveRack(reg, name).value, other) == Lookup(reg, other)
  {
    if other != name {
      LookupWithout(reg, name, other);
    }
  }

  /** Registering a rack under a free name and removing it again gives back
      the registry it started from. */
  lemma RegisterThenRemove<R>(reg: seq<Entry<R>>, name: string, rack: R)
    requires name !in Names(reg)
    ensures RegisterRack(reg, name, rack).Ok?
    ensures RemoveRack(RegisterRack(reg, name, rack).value, name) == Ok(reg)
  {
    WithoutAbsent(reg, name);
    WithoutAppend(reg, name, rack);
    NamesAppend(reg, [Entry(name, rack)]);
  }

  lemma {:induction false} WithoutAbsent<R>(reg: seq<Entry<R>>, name: string)
    requires name !in Names(reg)
    ensures Without(reg, name) == reg
  {
    if reg != [] {
      assert Names(reg[1..]) == Names(reg)[1..];
      WithoutAbsent(reg[1..], name);
    }
  }

  lemma {:induction false} WithoutAppend<R>(reg: seq<Entry<R>>, name: string, rack: R)
    ensures Without(reg + [Entry(name, rack)], name) == Without(reg, name)
  {
    if reg == [] {
      assert [Entry(name, rack)][1..] == [];
    } else {
      assert (reg + [Entry(name, rack)])[1..] == reg[1..] + [Entry(name, rack)];
      WithoutAppend(reg[1..], name, rack);
    }
  }

  /** `new DuckRack(name)` in src/lib/duck-rack.js: build the rack, then
      register it under its name. */
  function Construct(reg: seq<Entry<Rack.Rack>>, name: string): (r: Result<(seq<Entry<Rack.Rack>>, Rack.Rack)>)
    ensures r.Ok? <==> name != "" && name !in Names(reg)
    ensures r.Ok? ==> Lookup(r.value.0, name) == Some(r.value.1) && r.value.1.store == []
  {
    var rack :- Rack.NewRack(name);
    var reg' :- RegisterRack(reg, name, rack);
    LookupAppend(reg, Entry(name, rack), name);
    Ok((reg', rack))
  }
}
