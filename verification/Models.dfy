/** src/dao/Models.h: the rows the server stores. */
module Models {
  datatype FileRecord = FileRecord(
    id: int, userId: int, filename: string, fileHash: string, fileSize: int,
    storagePath: string, status: int, summary: string, tags: string, createdAt: string)

  datatype SessionRecord = SessionRecord(
    id: int, userId: int, sessionToken: string, expiresAt: string, createdAt: string)
}
