/**
 * A trie vertex (spell.Node).  The trie keeps its nodes in one arena, a sequence
 * indexed by node number, so a child reference is the child's index in that arena
 * and `None` is an empty slot (Java's null).
 */
module Nodes {
  import opened Wrappers
  import opened Alphabet

  datatype Node = Node(frequencyCount: nat, isEnd: bool, nodes: seq<Option<nat>>) {
    /** getValue: the frequency count of the word that ends at this node. */
    function GetValue(): nat {
      frequencyCount
    }
  }

  /** new Node(): frequency 0, not an end of word, 26 empty child slots. */
  function NewNode(): (n: Node)
    ensures n.frequencyCount == 0 && n.GetValue() == 0 && !n.isEnd
    ensures |n.nodes| == AlphabetSize
    ensures forall c | 0 <= c < AlphabetSize :: n.nodes[c] == None
  {
    Node(0, false, seq(AlphabetSize, _ => None))
  }
}
