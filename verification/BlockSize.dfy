/** g_block_size_bytes */
module BlockSize {
  const BLOCK: nat := 4096
}
