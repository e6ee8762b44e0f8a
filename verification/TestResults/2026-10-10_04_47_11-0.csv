TestResult.DisplayName,TestResult.Outcome,TestResult.Duration,TestResult.ResourceCount,RandomSeed
DocumentApi.OwnerUpdate (correctness),Passed,00:00:00.7397082,1281608,0
DocumentApi.HandleDocument (well-formedness),Passed,00:00:00.5751985,1145854,0
Accounts.HandleKeepsValid (correctness),Passed,00:00:00.4763475,736077,0
DocumentApi.OwnerDestroyRemovesExactly (correctness),Passed,00:00:00.4430953,773006,0
Accounts.ResetRequestSilent (correctness),Passed,00:00:00.3294080,571376,0
Uploads.SplitextLower (correctness),Passed,00:00:00.3271984,1061886,0
DocumentApi.NonOwnerMutationForbidden (correctness),Passed,00:00:00.3166947,518588,0
DocumentApi.AnyoneMayDeleteFile (correctness),Passed,00:00:00.2884575,553836,0
Accounts.LogoutTwice (correctness),Passed,00:00:00.2850175,378981,0
DocumentApi.HandleFile (well-formedness),Passed,00:00:00.2772188,971964,0
DocumentApi.HandleFileKeepsValid (correctness),Passed,00:00:00.2712764,1455929,0
Accounts.Handle (well-formedness),Passed,00:00:00.2650865,390929,0
DocumentApi.CreateSucceeds (correctness),Passed,00:00:00.2604942,362707,0
DocumentApi.UploadAccepted (correctness),Passed,00:00:00.2584242,462149,0
DocumentApi.HandleDocumentKeepsValid (correctness),Passed,00:00:00.2567245,482482,0
Base64Url.DecodeDomain (correctness),Passed,00:00:00.2484523,619455,0
Accounts.ProfileIsOwn (correctness),Passed,00:00:00.2436598,440401,0
Accounts.ResetRoundTrip (correctness),Passed,00:00:00.2372499,556014,0
DocumentApi.CreateStampsCreator (correctness),Passed,00:00:00.2322037,393078,0
Accounts.AnonymousAdmitted (correctness),Passed,00:00:00.2314586,352402,0
Base64Url.DecodeLeadingGroup (correctness),Passed,00:00:00.2304727,565097,0
Accounts.ProfileIsOwn (well-formedness),Passed,00:00:00.2284745,366260,0
DocumentApi.UnknownSlugNotFound (correctness),Passed,00:00:00.2282429,368699,0
DocumentApi.OwnerUpdate (well-formedness),Passed,00:00:00.2273125,400263,0
Accounts.WrongOldPasswordRejected (well-formedness),Passed,00:00:00.2262561,346504,0
Uploads.SpreadsheetAccepted (correctness),Passed,00:00:00.2259279,590792,0
DocumentApi.DocumentFor (well-formedness),Passed,00:00:00.2246968,149239,0
Documents.Upsert (well-formedness),Passed,00:00:00.2226248,568746,0
DocumentApi.OwnerDestroyRemovesExactly (well-formedness),Passed,00:00:00.2219423,338564,0
DocumentApi.CreateStampsCreator (well-formedness),Passed,00:00:00.2202510,357109,0
DocumentApi.UnknownSlugNotFound (well-formedness),Passed,00:00:00.2193326,324628,0
DocumentApi.RetrieveOpenToAll (correctness),Passed,00:00:00.2190777,378205,0
Accounts.NewPasswordChecks (correctness),Passed,00:00:00.2142799,376113,0
Accounts.LogoutTwice (well-formedness),Passed,00:00:00.2115558,328316,0
DocumentApi.UploadStampsUploader (correctness),Passed,00:00:00.2107512,489241,0
DocumentApi.RetrieveOpenToAll (well-formedness),Passed,00:00:00.2079534,319800,0
Accounts.ResetRequestSilent (well-formedness),Passed,00:00:00.2032653,339043,0
DocumentApi.UploadAccepted (well-formedness),Passed,00:00:00.2030205,321602,0
DocumentApi.ListShowsAll (well-formedness),Passed,00:00:00.2028551,318830,0
DocumentApi.HandleKeepsValid (correctness),Passed,00:00:00.2026869,385182,0
DocumentApi.HandleKeepsValid (well-formedness),Passed,00:00:00.2018426,319221,0
DocumentApi.Handle (well-formedness),Passed,00:00:00.2017768,349184,0
DocumentApi.AnyoneMayDeleteFile (well-formedness),Passed,00:00:00.2011798,346229,0
Base64Url.DecodeEncode (correctness),Passed,00:00:00.1980395,754779,0
Accounts.NewPasswordChecks (well-formedness),Passed,00:00:00.1891394,379762,0
DocumentApi.UploadStampsUploader (well-formedness),Passed,00:00:00.1860513,336661,0
Accounts.ConfirmResetSucceedsIff (correctness),Passed,00:00:00.1833293,204492,0
Uploads.Splitext (well-formedness),Passed,00:00:00.1822599,198794,0
Accounts.WrongOldPasswordRejected (correctness),Passed,00:00:00.1806092,351551,0
DocumentApi.ListShowsAll (correctness),Passed,00:00:00.1771910,328124,0
Accounts.ResetRoundTrip (well-formedness),Passed,00:00:00.1755478,332882,0
DocumentApi.DocFieldErrors (well-formedness),Passed,00:00:00.1753421,55183,0
Accounts.LogoutIgnoresCredentials (correctness),Passed,00:00:00.1692627,351312,0
Accounts.GarbledUidIsServerError (correctness),Passed,00:00:00.1566955,223953,0
DocumentApi.RemoveDocumentKeepsValid (correctness),Passed,00:00:00.1560898,332213,0
Accounts.UnknownUserIsServerError (correctness),Passed,00:00:00.1557369,265827,0
DocumentApi.HandleDocumentKeepsValid (well-formedness),Passed,00:00:00.1518206,239881,0
Accounts.BadTokenRejected (well-formedness),Passed,00:00:00.1494686,173095,0
Accounts.RequestReset (well-formedness),Passed,00:00:00.1486635,268116,0
Uploads.ParseDocumentFilePath (correctness),Passed,00:00:00.1445891,484722,0
DocumentApi.CreateSucceeds (well-formedness),Passed,00:00:00.1397937,319929,0
Accounts.ConfirmResetAsWritten (well-formedness),Passed,00:00:00.1271841,203521,0
Accounts.ChangePassword (well-formedness),Passed,00:00:00.1265227,165325,0
Documents.FilesNotOf (well-formedness),Passed,00:00:00.1229346,280561,0
DocumentApi.NonOwnerMutationForbidden (well-formedness),Passed,00:00:00.1224764,323524,0
Uploads.LowerChar (well-formedness),Passed,00:00:00.1213745,10485,0
Uploads.LastIndexOfLower (correctness),Passed,00:00:00.1211635,56963,0
Accounts.EmailFieldOk (well-formedness),Passed,00:00:00.1209297,64990,0
Accounts.RegisteredUserChecks (well-formedness),Passed,00:00:00.1123208,138967,0
Http.NoNullChars (well-formedness),Passed,00:00:00.1067434,8628,0
Accounts.ShortPasswordRejected (well-formedness),Passed,00:00:00.1057031,110164,0
Accounts.BadTokenRejected (correctness),Passed,00:00:00.1055781,195649,0
DocumentApi.FindFile (well-formedness),Passed,00:00:00.1003230,94207,0
Permissions.StrangersUnauthorized (correctness),Passed,00:00:00.0965734,42974,0
Permissions.StrangersUnauthorized (well-formedness),Passed,00:00:00.0960736,50637,0
Uploads.DotFileRejected (correctness),Passed,00:00:00.0938197,206982,0
Accounts.ConfirmReset (well-formedness),Passed,00:00:00.0921436,194155,0
Accounts.ConfirmErrors (well-formedness),Passed,00:00:00.0844499,138379,0
Base64Url.DecodeTwoByteTail (correctness),Passed,00:00:00.0754508,123645,0
DocumentApi.RemoveDocumentKeepsValid (well-formedness),Passed,00:00:00.0749909,54984,0
Documents.FindSlug (well-formedness),Passed,00:00:00.0722523,145591,0
Accounts.ConfirmResetSucceedsIff (well-formedness),Passed,00:00:00.0715935,187817,0
ResetLink.DecodeEncodeUid (correctness),Passed,00:00:00.0665481,133121,0
Accounts.DuplicateEmailRejected (correctness),Passed,00:00:00.0657682,117606,0
Uploads.ValidateFileCaseInsensitive (correctness),Passed,00:00:00.0655971,100625,0
Base64Url.TrailingBitsIgnored (correctness),Passed,00:00:00.0651117,119269,0
DocumentApi.HandleFileKeepsValid (well-formedness),Passed,00:00:00.0639477,186125,0
Permissions.DocumentAccessDecision (correctness),Passed,00:00:00.0633444,100557,0
Base64Url.Encode (well-formedness),Passed,00:00:00.0621194,179685,0
Accounts.RegisteredUserChecks (correctness),Passed,00:00:00.0620668,175581,0
Accounts.Revoke (well-formedness),Passed,00:00:00.0587853,144438,0
Accounts.ShortPasswordRejected (correctness),Passed,00:00:00.0586254,113705,0
Documents.Save (well-formedness),Passed,00:00:00.0580761,155486,0
Uploads.ContentTypeIgnored (correctness),Passed,00:00:00.0578059,77053,0
Accounts.UpdateProfile (well-formedness),Passed,00:00:00.0574360,106361,0
Base64Url.DecodeOneByteTail (correctness),Passed,00:00:00.0555350,63677,0
Accounts.RegisterUser (well-formedness),Passed,00:00:00.0553915,120866,0
Accounts.RegisterErrors (well-formedness),Passed,00:00:00.0544052,122063,0
Base64Url.DecodeTail (well-formedness),Passed,00:00:00.0538803,84930,0
Documents.FindId (well-formedness),Passed,00:00:00.0532910,142763,0
Base64Url.EncodeTail (well-formedness),Passed,00:00:00.0531011,129829,0
Documents.UpsertKeepsSlugsDistinct (correctness),Passed,00:00:00.0523596,139122,0
Uploads.ValidateFile (well-formedness),Passed,00:00:00.0518488,84031,0
Uploads.SpreadsheetAccepted (well-formedness),Passed,00:00:00.0517070,70579,0
Accounts.ConfirmFor (well-formedness),Passed,00:00:00.0497608,95621,0
Uploads.SizeBoundary (well-formedness),Passed,00:00:00.0490756,77145,0
Base64Url.Decode (well-formedness),Passed,00:00:00.0487302,48857,0
DocumentApi.UploadErrors (well-formedness),Passed,00:00:00.0486777,151599,0
Base64Url.EncodeInjective (correctness),Passed,00:00:00.0465046,52183,0
Uploads.DocumentFilePath (well-formedness),Passed,00:00:00.0456542,48183,0
ResetLink.DecodeUid (well-formedness),Passed,00:00:00.0449356,70283,0
Accounts.ChangeErrors (well-formedness),Passed,00:00:00.0448621,92947,0
Permissions.CheckObjectPermissions (well-formedness),Passed,00:00:00.0446402,51525,0
Base64Url.CharSextet (well-formedness),Passed,00:00:00.0442765,52095,0
Uploads.SizeBoundary (correctness),Passed,00:00:00.0441187,77038,0
Uploads.Lower (well-formedness),Passed,00:00:00.0429961,39215,0
ResetLink.EncodeUid (well-formedness),Passed,00:00:00.0423949,55690,0
Accounts.DuplicateEmailRejected (well-formedness),Passed,00:00:00.0423124,114804,0
Slugs.AllocateIgnoresUnrelated (correctness),Passed,00:00:00.0422515,91476,0
Base64Url.TrailingBitsIgnored (well-formedness),Passed,00:00:00.0419469,47905,0
Base64Url.DecodeDomain (well-formedness),Passed,00:00:00.0416791,36502,0
Accounts.TicketUser (well-formedness),Passed,00:00:00.0414705,87573,0
Documents.RemoveAtKeepsDocsDistinct (correctness),Passed,00:00:00.0407735,65946,0
Base64Url.DecodeTwoByteTail (well-formedness),Passed,00:00:00.0398389,41702,0
Decimal.ParseNatToString (correctness),Passed,00:00:00.0396270,89340,0
Base64Url.DecodeOneByteTail (well-formedness),Passed,00:00:00.0395652,38111,0
Uploads.ParseDocumentFilePath (well-formedness),Passed,00:00:00.0392583,33655,0
Uploads.ParseFilePath (well-formedness),Passed,00:00:00.0391222,35770,0
Accounts.FirstWithEmail (well-formedness),Passed,00:00:00.0388952,89986,0
Slugs.AllocateIsLeastFree (correctness),Passed,00:00:00.0384019,82822,0
ResetLink.EncodeUidInjective (correctness),Passed,00:00:00.0381937,74849,0
Base64Url.AllUrlSafeSplit (correctness),Passed,00:00:00.0378769,43542,0
ResetLink.DigitText (well-formedness),Passed,00:00:00.0378068,57735,0
Decimal.NatToString (well-formedness),Passed,00:00:00.0377650,38515,0
Slugs.TriedSize (correctness),Passed,00:00:00.0375758,66876,0
Permissions.MutationOnlyByOwner (well-formedness),Passed,00:00:00.0370115,43006,0
Slugs.TriedStep (correctness),Passed,00:00:00.0369951,48198,0
Slugs.FirstFreeFrom (well-formedness),Passed,00:00:00.0367664,61876,0
Slugs.FirstFree (well-formedness),Passed,00:00:00.0345093,39751,0
Documents.RetitledSlug (well-formedness),Passed,00:00:00.0337583,77588,0
Uploads.SplitextOfName (correctness),Passed,00:00:00.0326174,72983,0
Permissions.MutationOnlyByOwner (correctness),Passed,00:00:00.0321015,50971,0
Permissions.CheckPermissions (well-formedness),Passed,00:00:00.0319978,37901,0
Uploads.LastIndexOf (well-formedness),Passed,00:00:00.0307830,35206,0
ResetLink.DigitBytes (well-formedness),Passed,00:00:00.0301087,42912,0
Accounts.RegisterPasswordOk (well-formedness),Passed,00:00:00.0290201,46098,0
Documents.SavedSlug (well-formedness),Passed,00:00:00.0289106,51164,0
Permissions.OwnerAllowed (correctness),Passed,00:00:00.0288484,39974,0
DocumentApi.EmptySlugKept (correctness),Passed,00:00:00.0284538,70387,0
Base64Url.AllUrlSafeSplit (well-formedness),Passed,00:00:00.0279673,17651,0
Base64Url.CharSextetInverse (correctness),Passed,00:00:00.0279380,45422,0
Slugs.Allocate (well-formedness),Passed,00:00:00.0276418,37377,0
Permissions.FileAccessDecision (well-formedness),Passed,00:00:00.0268924,27735,0
DocumentApi.EmptySlugKept (well-formedness),Passed,00:00:00.0266772,54587,0
Uploads.LowerIdempotent (correctness),Passed,00:00:00.0265778,28223,0
Permissions.SafeMethodsAllowed (correctness),Passed,00:00:00.0255667,40257,0
Permissions.DocumentAccessDecision (well-formedness),Passed,00:00:00.0253289,39842,0
Slugs.Candidate (well-formedness),Passed,00:00:00.0246577,25217,0
Permissions.FileAccessDecision (correctness),Passed,00:00:00.0240946,36211,0
Base64Url.AllUrlSafe (well-formedness),Passed,00:00:00.0239719,12146,0
Documents.RemoveAtKeepsFilesDistinct (correctness),Passed,00:00:00.0239700,42080,0
Accounts.EmailsUnique (well-formedness),Passed,00:00:00.0226908,21221,0
Base64Url.EncodeGroup (well-formedness),Passed,00:00:00.0223327,24021,0
Slugs.Tried (well-formedness),Passed,00:00:00.0214615,21792,0
Slugs.SubsetSize (correctness),Passed,00:00:00.0213880,18958,0
Documents.UpsertKeepsSlugsDistinct (well-formedness),Passed,00:00:00.0209373,49933,0
Documents.Valid (well-formedness),Passed,00:00:00.0206936,47099,0
Uploads.IndexOf (well-formedness),Passed,00:00:00.0206146,34361,0
Slugs.IsLeastFree (well-formedness),Passed,00:00:00.0205346,25403,0
Base64Url.GroupArithmetic (correctness),Passed,00:00:00.0203473,64649,0
Permissions.OwnerOrReadOnly (well-formedness),Passed,00:00:00.0202786,17426,0
Documents.SlugsDistinct (well-formedness),Passed,00:00:00.0200091,16744,0
Uploads.SplitextOfName (well-formedness),Passed,00:00:00.0198744,32041,0
Base64Url.GroupArithmetic (well-formedness),Passed,00:00:00.0197333,19236,0
Slugs.CandidateInjective (correctness),Passed,00:00:00.0194275,32093,0
Slugs.TriedStep (well-formedness),Passed,00:00:00.0191360,24051,0
Documents.RemoveAtKeepsFilesDistinct (well-formedness),Passed,00:00:00.0187963,27321,0
Decimal.AllDigits (well-formedness),Passed,00:00:00.0184150,10810,0
Decimal.DigitChar (well-formedness),Passed,00:00:00.0179673,8542,0
Documents.DocIds (well-formedness),Passed,00:00:00.0176351,14678,0
Uploads.HasExtension (well-formedness),Passed,00:00:00.0172648,12719,0
Base64Url.SextetChar (well-formedness),Passed,00:00:00.0169363,22067,0
Permissions.Deny (well-formedness),Passed,00:00:00.0164012,10522,0
Documents.IdsDistinct (well-formedness),Passed,00:00:00.0159855,16744,0
Documents.RemoveAtKeepsDocsDistinct (well-formedness),Passed,00:00:00.0147819,27395,0
Uploads.IsUuidText (well-formedness),Passed,00:00:00.0147279,12534,0
Slugs.TriedBound (correctness),Passed,00:00:00.0146126,26273,0
Documents.SlugsOfOthers (well-formedness),Passed,00:00:00.0146064,16760,0
Documents.RemoveAtMembers (correctness),Passed,00:00:00.0143214,27330,0
Accounts.Authenticate (well-formedness),Passed,00:00:00.0142761,27528,0
Accounts.EmailTaken (well-formedness),Passed,00:00:00.0141067,19540,0
Decimal.NatToStringInjective (correctness),Passed,00:00:00.0137915,24752,0
Decimal.ParseDigits (well-formedness),Passed,00:00:00.0134144,21358,0
Slugs.TriedBound (well-formedness),Passed,00:00:00.0126503,20698,0
Decimal.ParseNatToString (well-formedness),Passed,00:00:00.0125628,21267,0
Decimal.DigitValue (well-formedness),Passed,00:00:00.0124414,8122,0
Base64Url.Byte1 (well-formedness),Passed,00:00:00.0123656,9727,0
Accounts.NameOk (well-formedness),Passed,00:00:00.0123359,12703,0
Documents.SlugsOf (well-formedness),Passed,00:00:00.0120819,14678,0
DocumentApi.DescriptionOk (well-formedness),Passed,00:00:00.0120056,12703,0
Accounts.Given (well-formedness),Passed,00:00:00.0119540,14137,0
Documents.RemoveAt (well-formedness),Passed,00:00:00.0119227,20769,0
Documents.RemoveAtMembers (well-formedness),Passed,00:00:00.0119136,16017,0
Base64Url.Byte2 (well-formedness),Passed,00:00:00.0105954,6843,0
Documents.SlugTakenByOther (well-formedness),Passed,00:00:00.0102191,16363,0
DocumentApi.TextFieldOk (well-formedness),Passed,00:00:00.0096638,13967,0
Base64Url.Byte0 (well-formedness),Passed,00:00:00.0094751,8368,0
Base64Url.Sextet (well-formedness),Passed,00:00:00.0090291,3672,0
Base64Url.Byte (well-formedness),Passed,00:00:00.0080385,3672,0
Uploads.MaxFileSize (well-formedness),Passed,00:00:00.0063147,4232,0
