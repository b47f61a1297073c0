/** The kernel's status codes; functions return their negations. */
module Status {
  const SUCCESS := 0
  const ERR_INVARG := 1
  const ERR_MALLOC_FAIL := 2
  const ERR_MAX_PROCESS_LIMIT_REACHED := 12
  const ERR_PROCESS_CREATION_FAILED := 14
  const ERR_PROCESS_MAPPING_FAILED := 15
}
