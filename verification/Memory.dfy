/**
 Inferior memory as seL4_ARM_VSpace_Read_Word and seL4_ARM_VSpace_Write_Word show
 it: bytes, and fixed sets of addresses at which a word can be read or written.
 */
module Memory {
  import opened Options
  import opened Words

  datatype VSpace = VSpace(bytes: map<nat, byte>, readable: set<nat>, writable: set<nat>) {

    /** A word can only be accessed where all its bytes exist. */
    ghost predicate Valid() {
      && (forall a :: a in readable ==> HasWord(bytes, a))
      && (forall a :: a in writable ==> HasWord(bytes, a))
    }

    function Read(a: nat): Option<Word>
      requires Valid()
    {
      if a in readable then Some(LoadWord(bytes, a)) else None
    }

    /** The new vspace, or `None` where the kernel reports an error. */
    function Write(a: nat, w: Word): (r: Option<VSpace>)
      requires Valid()
      ensures r.Some? ==> r.value.Valid()
    {
      if a in writable then Some(this.(bytes := StoreWord(bytes, a, w))) else None
    }
  }

  predicate HasWord(m: map<nat, byte>, a: nat) {
    && a in m && a + 1 in m && a + 2 in m && a + 3 in m
    && a + 4 in m && a + 5 in m && a + 6 in m && a + 7 in m
  }

  function LoadWord(m: map<nat, byte>, a: nat): Word
    requires HasWord(m, a)
  {
    Word(m[a], m[a + 1], m[a + 2], m[a + 3], m[a + 4], m[a + 5], m[a + 6], m[a + 7])
  }

  function StoreWord(m: map<nat, byte>, a: nat, w: Word): (r: map<nat, byte>)
    requires HasWord(m, a)
    ensures r.Keys == m.Keys
    ensures forall x :: x in m && !(a <= x < a + 8) ==> r[x] == m[x]
    ensures LoadWord(r, a) == w
  {
    m[a := w.b0][a + 1 := w.b1][a + 2 := w.b2][a + 3 := w.b3]
     [a + 4 := w.b4][a + 5 := w.b5][a + 6 := w.b6][a + 7 := w.b7]
  }

  /** Writing back the word that was read undoes any write in between. */
  lemma WriteBack(m: map<nat, byte>, a: nat, w: Word)
    requires HasWord(m, a)
    ensures StoreWord(StoreWord(m, a, w), a, LoadWord(m, a)) == m
  {
  }
}
