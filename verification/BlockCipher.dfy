// Any function from blocks to blocks, such as a block cipher under some key.
module BlockCipher {
  import opened Bytes

  datatype Mode = Encrypt | Decrypt

  datatype Cipher = Cipher(table: map<Block, Block>)

  function Apply(E: Cipher, x: Block): Block {
    if x in E.table then E.table[x] else x
  }

  // The cipher may refuse to work; whatever it returns then is not used.
  method Encipher(E: Cipher, x: Block) returns (failed: bool, y: Block)
    ensures !failed ==> y == Apply(E, x)
  {
    failed := *;
    y := Apply(E, x);
  }
}
