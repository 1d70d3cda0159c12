/** Status codes (error.h) and record ids (page.h). */
module Statuses {
  datatype Status =
    | OK
    | BADPAGENO | FILEEXISTS | UNIXERR
    | HASHTBLERROR | HASHNOTFOUND | BUFFEREXCEEDED | PAGENOTPINNED | PAGEPINNED
    | NOSPACE | NORECORDS | ENDOFPAGE | INVALIDSLOTNO | INVALIDRECLEN
    | BADSCANPARM | FILEEOF
    | BADSORTPARM | INSUFMEM
    | ASSERTFAILED    // the ASSERT macro of join.C: the program exits
    | DIVISIONBYZERO  // the program is killed

  datatype RID = RID(pageNo: int, slotNo: int)

  const NULLRID := RID(-1, -1)
}
