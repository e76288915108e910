/** The page size of the kernel. */
module Pages {
  const PAGE: nat := 4096
}
