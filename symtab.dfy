/**
 * The symbol table of the array-language compiler (parser/6-arrays/sym.h): a hash map from a
 * scoped name to a symbol.  Adding a variable or a function stores a fresh symbol under the scoped
 * name, replacing whatever was there; looking a name up yields the symbol or nothing.
 */
module SymTab {
  import opened Wrappers

  datatype SymbolType = Scalar | Vector | Matrix | Str | Int | Void | Func

  /** The two dimensions of a vector or matrix, 0 where unused. */
  datatype Dims = Dims(rows: nat, cols: nat)

  /** A symbol: its plain name, type and dimensions, and for a function the argument and return
    * types and the return dimensions; whether it is a temporary and whether it lives on the heap. */
  datatype Symbol = Symbol(name: string, ty: SymbolType, dims: Dims, argty: seq<SymbolType>,
                           retty: SymbolType, retdims: Dims, tmp: bool, onHeap: bool)

  /** The argument type list a symbol gets by default: the brace initialiser of the vector holds
    * one value-initialised element, the first enumerator. */
  const DefaultArgTy: seq<SymbolType> := [Scalar]

  /** The symbol AddSymbol builds: the given name, type, dimensions and flags; the function parts
    * keep their defaults. */
  function VarSymbol(name: string, ty: SymbolType, dims: Dims, isTemp: bool, onHeap: bool): (s: Symbol)
    ensures s.name == name && s.ty == ty && s.dims == dims && s.tmp == isTemp && s.onHeap == onHeap
    ensures s.argty == DefaultArgTy && s.retty == Void && s.retdims == Dims(0, 0)
  {
    Symbol(name, ty, dims, DefaultArgTy, Void, Dims(0, 0), isTemp, onHeap)
  }

  /** The symbol AddFunc builds: of type FUNC with the argument and return types, the return
    * dimensions only when they are given; the variable parts keep their defaults. */
  function FuncSymbol(name: string, retty: SymbolType, argtypes: seq<SymbolType>, retdims: Option<Dims>): (s: Symbol)
    ensures s.name == name && s.ty == Func && s.argty == argtypes && s.retty == retty
    ensures retdims.Some? ==> s.retdims == retdims.value
    ensures retdims.None? ==> s.retdims == Dims(0, 0)
    ensures s.dims == Dims(0, 0) && !s.tmp && !s.onHeap
  {
    var s := Symbol(name, Func, Dims(0, 0), argtypes, retty, Dims(0, 0), false, false);
    if retdims.Some? then s.(retdims := retdims.value) else s
  }

  /** find: the symbol under the key, or nothing when the key is absent. */
  function Find(syms: map<string, Symbol>, key: string): (r: Option<Symbol>)
    ensures r.None? <==> key !in syms
    ensures r.Some? ==> r.value == syms[key]
  {
    if key in syms then Some(syms[key]) else None
  }

  class SymTab {
    var syms: map<string, Symbol>

    constructor()
      ensures syms == map[]
    {
      syms := map[];
    }

    /** AddSymbol: store a variable under its scoped name, replacing any symbol stored there. */
    method AddSymbol(nameWithScope: string, name: string, ty: SymbolType, dims: Dims,
                     isTemp: bool, onHeap: bool) returns (r: Symbol)
      modifies this
      ensures syms == old(syms)[nameWithScope := VarSymbol(name, ty, dims, isTemp, onHeap)]
      ensures r == syms[nameWithScope]
    {
      var sym := VarSymbol(name, ty, dims, isTemp, onHeap);
      syms := syms[nameWithScope := sym];
      r := syms[nameWithScope];
    }

    /** AddFunc: store a function under its scoped name, replacing any symbol stored there. */
    method AddFunc(nameWithScope: string, name: string, retty: SymbolType, argtypes: seq<SymbolType>,
                   retdims: Option<Dims>) returns (r: Symbol)
      modifies this
      ensures syms == old(syms)[nameWithScope := FuncSymbol(name, retty, argtypes, retdims)]
      ensures r == syms[nameWithScope]
    {
      var sym := Symbol(name, Func, Dims(0, 0), argtypes, retty, Dims(0, 0), false, false);
      if retdims.Some? {
        sym := sym.(retdims := retdims.value);
      }
      syms := syms[nameWithScope := sym];
      r := syms[nameWithScope];
    }

    /** FindSymbol: the symbol stored under the name, or null. */
    method FindSymbol(name: string) returns (r: Option<Symbol>)
      ensures r == Find(syms, name)
    {
      if name !in syms {
        return None;
      }
      return Some(syms[name]);
    }
  }

  /** A symbol just stored is found under its scoped name, whatever was stored there before, and
    * every other key finds what it found before. */
  lemma FindAfterStore(syms: map<string, Symbol>, key: string, s: Symbol, other: string)
    ensures Find(syms[key := s], key) == Some(s)
    ensures other != key ==> Find(syms[key := s], other) == Find(syms, other)
    ensures |syms[key := s].Keys| == if key in syms then |syms.Keys| else |syms.Keys| + 1
  {
    if key !in syms {
      assert syms[key := s].Keys == syms.Keys + {key};
    } else {
      assert syms[key := s].Keys == syms.Keys;
    }
  }

  /** Worked example of FindAfterStore on a scoped name.  The table is keyed by the scoped name
    * while the symbol keeps the plain name: a variable
    * stored under "f/x" is found under "f/x", not under "x" unless that key was there, and it is
    * named "x". */
  lemma ScopedKey(syms: map<string, Symbol>, ty: SymbolType, dims: Dims)
    requires "x" !in syms
    ensures var t := syms["f/x" := VarSymbol("x", ty, dims, false, false)];
            Find(t, "f/x").Some? && Find(t, "f/x").value.name == "x" && Find(t, "x").None?
  {
    var t := syms["f/x" := VarSymbol("x", ty, dims, false, false)];
    assert "f/x" != "x";
    FindAfterStore(syms, "f/x", VarSymbol("x", ty, dims, false, false), "x");
  }
}
