/**
  The parts of the structural model that the orchestration in `tsviz.ts`
  reads. A module's classes, interfaces and enums are never inspected there
  and are not represented; the module type itself is defined in
  `ts-elements`, which is not part of this model.
 */
module Elements {

  /** A reference from a module to another module or type, by name only. */
  datatype Dependency = Dependency(name: string)

  /** A namespace-like grouping: its name, its nested modules in declaration
      order, and the dependencies recorded on it (possibly repeated). */
  datatype Module = Module(name: string, modules: seq<Module>, dependencies: seq<Dependency>)

  /** The external projection returned by the dependency query. */
  datatype OutputModule = OutputModule(name: string, dependencies: seq<string>)

  /** The key modules are sorted by. */
  function NameOf(m: Module): string
  {
    m.name
  }

  /** The key entries of the dependency query are ordered by. */
  function EntryName(o: OutputModule): string
  {
    o.name
  }

  /** Some recorded dependency of `deps` carries the name `n`. */
  ghost predicate Mentions(deps: seq<Dependency>, n: string)
  {
    exists d :: d in deps && d.name == n
  }
}
