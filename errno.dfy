/** Return codes of the controller firmware's functions: 0 for success, otherwise a
    negated errno value (main.c returns -EINVAL, -EIO, -ETIMEDOUT, -ENODATA, or the code
    the file system returned). The numeric values are not part of this model. */
module Errno {

  datatype Status =
    | Ok                   // 0
    | EInval               // -EINVAL: the declared image size is 0 or too large
    | EIo                  // -EIO: the camera answered with an ERR: line
    | ETimedOut            // -ETIMEDOUT: a 30 s wait ran out
    | ENoData              // -ENODATA: nothing complete to save
    | FsError(code: int)   // a nonzero code from fs_open or a negative one from fs_write
}
