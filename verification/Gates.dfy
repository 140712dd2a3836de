/** Wires and gates: circuits on single bits, such as one lane of the bitsliced AES. */
module Gates {

  datatype Wire = Off | On

  function XorGate(a: Wire, b: Wire): Wire { if a == b then Off else On }

  function AndGate(a: Wire, b: Wire): Wire { if a == On then b else Off }

  function OrGate(a: Wire, b: Wire): Wire { if a == On then On else b }

  function NotGate(a: Wire): Wire { if a == On then Off else On }

  // ---- The gates on bits

  predicate Xor2(a: bool, b: bool) { a != b }

  predicate And2(a: bool, b: bool) { a && b }

  predicate Or2(a: bool, b: bool) { a || b }

  predicate Not1(a: bool) { !a }

  /** The wire that carries a bit. */
  function Carry(b: bool): Wire { if b then On else Off }

  /** A circuit of wires that carry bits carries what the same circuit makes of the bits. */
  lemma Carried()
    ensures forall a, b {:trigger XorGate(Carry(a), Carry(b))} :: XorGate(Carry(a), Carry(b)) == Carry(Xor2(a, b))
    ensures forall a, b {:trigger AndGate(Carry(a), Carry(b))} :: AndGate(Carry(a), Carry(b)) == Carry(And2(a, b))
    ensures forall a, b {:trigger OrGate(Carry(a), Carry(b))} :: OrGate(Carry(a), Carry(b)) == Carry(Or2(a, b))
    ensures forall a {:trigger NotGate(Carry(a))} :: NotGate(Carry(a)) == Carry(Not1(a))
  {}

}
