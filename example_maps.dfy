/**
 * The map that `collectExamples` builds: a `DefaultMap` from example name to
 * the code blocks collected for it, whose default is the empty list.
 */
module ExampleMaps {

  type ExampleMap = map<string, seq<string>>

  /** One push onto the map: a block of code collected under a name. */
  datatype Entry = Entry(name: string, code: string)

  /** `examples.get(name)`: the blocks for `name`, the empty list when there are none. */
  function Get(m: ExampleMap, name: string): seq<string>
  {
    if name in m then m[name] else []
  }

  /** `result.get(name).push(code)` */
  function Push(m: ExampleMap, name: string, code: string): (r: ExampleMap)
    ensures Get(r, name) == Get(m, name) + [code]
    ensures forall other :: other != name ==> Get(r, other) == Get(m, other)
  {
    m[name := Get(m, name) + [code]]
  }

  /** The pushes of `entries`, in order. */
  function AddEntries(m: ExampleMap, entries: seq<Entry>): ExampleMap
    decreases |entries|
  {
    if entries == [] then m else AddEntries(Push(m, entries[0].name, entries[0].code), entries[1..])
  }

  /** The codes of the entries named `name`, in order. */
  function CodesNamed(entries: seq<Entry>, name: string): seq<string>
  {
    if entries == [] then []
    else (if entries[0].name == name then [entries[0].code] else []) + CodesNamed(entries[1..], name)
  }

  /** Pushing a list of entries appends, under every name, that name's codes in list order. */
  lemma {:induction false} AddEntriesGet(m: ExampleMap, entries: seq<Entry>, name: string)
    ensures Get(AddEntries(m, entries), name) == Get(m, name) + CodesNamed(entries, name)
    decreases |entries|
  {
    if entries != [] {
      var m' := Push(m, entries[0].name, entries[0].code);
      AddEntriesGet(m', entries[1..], name);
    }
  }

  /** Pushing two lists one after the other is pushing their concatenation. */
  lemma {:induction false} AddEntriesConcat(m: ExampleMap, first: seq<Entry>, second: seq<Entry>)
    ensures AddEntries(m, first + second) == AddEntries(AddEntries(m, first), second)
    decreases |first|
  {
    if first == [] {
      assert first + second == second;
    } else {
      assert (first + second)[1..] == first[1..] + second;
      AddEntriesConcat(Push(m, first[0].name, first[0].code), first[1..], second);
    }
  }

  /** Pushing `before`, then `e`, then `after`. */
  lemma AddEntriesThen(m: ExampleMap, before: seq<Entry>, e: Entry, after: seq<Entry>)
    ensures AddEntries(m, before + ([e] + after)) == AddEntries(Push(AddEntries(m, before), e.name, e.code), after)
  {
    AddEntriesConcat(m, before, [e] + after);
    assert ([e] + after)[1..] == after;
  }

  lemma {:induction false} CodesNamedConcat(first: seq<Entry>, second: seq<Entry>, name: string)
    ensures CodesNamed(first + second, name) == CodesNamed(first, name) + CodesNamed(second, name)
    decreases |first|
  {
    if first == [] {
      assert first + second == second;
    } else {
      assert (first + second)[1..] == first[1..] + second;
      CodesNamedConcat(first[1..], second, name);
    }
  }
}
