/** The .pag file: a growing sequence of words with one read/write position. A position past the end is allowed;
    reading there fails, and writing there fills the gap with zeros. */
module PageFile {
  import opened Words

  function WordAt(words: seq<nat>, p: nat): nat {
    if p < |words| then words[p] else VACANT
  }

  function Put(words: seq<nat>, p: nat, w: nat): (r: seq<nat>)
    ensures |r| == if p < |words| then |words| else p + 1
    ensures forall q: nat :: WordAt(r, q) == if q == p then w else WordAt(words, q)
  {
    if p < |words| then words[p := w] else words + seq(p - |words|, _ => VACANT) + [w]
  }

  class Pages {
    var words: seq<nat>
    var pos: nat  // in bytes

    constructor (words: seq<nat>)
      ensures this.words == words && pos == 0
    {
      this.words, pos := words, 0;
    }

    method Seek(dest: nat)
      modifies this`pos
      ensures pos == dest
    {
      pos := dest;
    }

    /** fread of one word: at or past the end of the file nothing is read and the position stays. */
    method Read() returns (ok: bool, val: nat)
      requires pos % SOF == 0
      modifies this`pos
      ensures ok == (old(pos) / SOF < |words|)
      ensures ok ==> val == words[old(pos) / SOF] && pos == old(pos) + SOF
      ensures !ok ==> pos == old(pos)
    {
      ok, val := pos / SOF < |words|, VACANT;
      if ok {
        val := words[pos / SOF];
        pos := pos + SOF;
      }
    }

    method Write(val: nat)
      requires pos % SOF == 0
      modifies this
      ensures words == Put(old(words), old(pos) / SOF, val) && pos == old(pos) + SOF
    {
      words := Put(words, pos / SOF, val);
      pos := pos + SOF;
    }
  }
}
